/** The scans of a picture: the controller's MCUs go through the entropy coder and back into coefficient arrays, and
    every block of the picture is found at its place. */
module PictureScans {
  import opened Numbers
  import opened JpegScan
  import opened ScanCoding
  import opened ScanRoundTrip
  import opened ProgressiveScript
  import opened ScriptDecoding
  import G = McuGeometry
  import C = CoefController
  import O = McuOrder

  // ---- Where consume_data puts the blocks of each MCU ----

  function PlaceRow(c: G.Component, row: nat, col: nat, n: nat): (r: seq<Place>)
    ensures |r| == n && forall x :: 0 <= x < n ==> r[x] == Place(c.index, row, col + x)
  {
    seq<Place>(n, x requires 0 <= x < n => Place(c.index, row, col + x))
  }

  function PlaceRows(s: G.Scan, c: G.Component, row: nat, col: nat, n: nat): (r: seq<Place>)
    ensures |r| == n * G.McuWidth(s, c)
  {
    if n == 0 then [] else PlaceRows(s, c, row, col, n - 1) + PlaceRow(c, row + n - 1, col, G.McuWidth(s, c))
  }

  /** The places of the first n components of an MCU. */
  function PlacesIn(s: G.Scan, row: nat, y: nat, col: nat, n: nat): seq<Place>
    requires n <= |s|
  {
    if n == 0 then []
    else
      var c := s[n - 1];
      PlacesIn(s, row, y, col, n - 1)
      + PlaceRows(s, c, row * c.v + y, col * G.McuWidth(s, c), G.McuHeight(s, c))
  }

  function McuPlaces(s: G.Scan, row: nat, y: nat, col: nat): seq<Place>
  {
    PlacesIn(s, row, y, col, |s|)
  }

  /** The places of all MCUs before this one, in the order of the scan. */
  function LayoutBefore(p: G.Picture, s: G.Scan, row: nat, y: nat, col: nat): Layout
    requires G.ValidScan(p, s)
    decreases row, y, col
  {
    if col > 0 then LayoutBefore(p, s, row, y, col - 1) + [McuPlaces(s, row, y, col - 1)]
    else if y > 0 then LayoutBefore(p, s, row, y - 1, G.McusPerRow(p, s))
    else if row > 0 then LayoutBefore(p, s, row - 1, G.McuRows(p, s, row - 1), 0)
    else []
  }

  function LayoutOf(p: G.Picture, s: G.Scan): Layout
    requires G.ValidScan(p, s)
  {
    LayoutBefore(p, s, G.TotalRows(p), 0, 0)
  }

  // ---- The arrays of the picture, padded to whole MCUs ----

  function ArrayRows(p: G.Picture, c: G.Component): nat
    requires G.ValidPicture(p) && c in p.comps
  {
    G.TotalRows(p) * c.v
  }

  function ArrayCols(p: G.Picture, c: G.Component): nat
    requires G.ValidPicture(p) && c in p.comps
  {
    G.DivUp(p.width, p.maxH * p.blockSize) * c.h
  }

  ghost predicate InArray(p: G.Picture, q: Place)
    requires G.ValidPicture(p)
  {
    q.comp < |p.comps| && q.row < ArrayRows(p, p.comps[q.comp]) && q.col < ArrayCols(p, p.comps[q.comp])
  }

  /** Blocks of the picture itself, not of its padding. */
  ghost predicate InPicture(p: G.Picture, q: Place)
    requires G.ValidPicture(p)
  {
    q.comp < |p.comps|
    && q.row < G.HeightInBlocks(p, p.comps[q.comp]) && q.col < G.WidthInBlocks(p, p.comps[q.comp])
  }

  // ---- An MCU has the places of its group ----

  /** The place belongs to the MCU as a block of component c. */
  ghost predicate InGroup(s: G.Scan, c: G.Component, row: nat, y: nat, col: nat, q: Place)
  {
    && q.comp == c.index
    && row * c.v + y <= q.row < row * c.v + y + G.McuHeight(s, c)
    && col * G.McuWidth(s, c) <= q.col < col * G.McuWidth(s, c) + G.McuWidth(s, c)
  }

  lemma {:induction false} RowsHave(s: G.Scan, c: G.Component, row: nat, col: nat, n: nat, q: Place)
    ensures q in PlaceRows(s, c, row, col, n) <==>
      q.comp == c.index && row <= q.row < row + n && col <= q.col < col + G.McuWidth(s, c)
    decreases n
  {
    if n > 0 {
      RowsHave(s, c, row, col, n - 1, q);
      RowHas(c, row + n - 1, col, G.McuWidth(s, c), q);
    }
  }

  lemma RowHas(c: G.Component, row: nat, col: nat, n: nat, q: Place)
    ensures q in PlaceRow(c, row, col, n) <==> q.comp == c.index && q.row == row && col <= q.col < col + n
  {
    if q.comp == c.index && q.row == row && col <= q.col < col + n {
      assert PlaceRow(c, row, col, n)[q.col - col] == q;
    }
  }

  lemma {:induction false} McuHas(s: G.Scan, row: nat, y: nat, col: nat, n: nat, q: Place)
    requires n <= |s|
    ensures q in PlacesIn(s, row, y, col, n) <==> exists ci :: 0 <= ci < n && InGroup(s, s[ci], row, y, col, q)
    decreases n
  {
    if n > 0 {
      McuHas(s, row, y, col, n - 1, q);
      var c := s[n - 1];
      RowsHave(s, c, row * c.v + y, col * G.McuWidth(s, c), G.McuHeight(s, c), q);
    }
  }

  lemma {:induction false} PlacesCount(s: G.Scan, row: nat, y: nat, col: nat, n: nat)
    requires n <= |s|
    ensures |PlacesIn(s, row, y, col, n)| == G.BlocksInMcu(s, n)
    decreases n
  {
    if n > 0 {
      PlacesCount(s, row, y, col, n - 1);
    }
  }

  // ---- No place twice ----

  ghost predicate NoneTwice(r: seq<Place>)
  {
    forall i, j :: 0 <= i < j < |r| ==> r[i] != r[j]
  }

  ghost predicate OneEach(s: G.Scan)
  {
    forall i, j :: 0 <= i < j < |s| ==> s[i].index != s[j].index
  }

  lemma {:induction false} RowsOnce(s: G.Scan, c: G.Component, row: nat, col: nat, n: nat)
    ensures NoneTwice(PlaceRows(s, c, row, col, n))
    decreases n
  {
    if n > 0 {
      RowsOnce(s, c, row, col, n - 1);
      var a, b := PlaceRows(s, c, row, col, n - 1), PlaceRow(c, row + n - 1, col, G.McuWidth(s, c));
      forall i | 0 <= i < |a|
        ensures a[i].row < row + n - 1
      {
        assert a[i] in a;
        RowsHave(s, c, row, col, n - 1, a[i]);
      }
    }
  }

  lemma {:induction false} McuOnce(s: G.Scan, row: nat, y: nat, col: nat, n: nat)
    requires n <= |s| && OneEach(s)
    ensures NoneTwice(PlacesIn(s, row, y, col, n))
    decreases n
  {
    if n > 0 {
      McuOnce(s, row, y, col, n - 1);
      var c := s[n - 1];
      var a, b := PlacesIn(s, row, y, col, n - 1), PlaceRows(s, c, row * c.v + y, col * G.McuWidth(s, c), G.McuHeight(s, c));
      RowsOnce(s, c, row * c.v + y, col * G.McuWidth(s, c), G.McuHeight(s, c));
      forall i | 0 <= i < |a|
        ensures a[i].comp != c.index
      {
        assert a[i] in a;
        McuHas(s, row, y, col, n - 1, a[i]);
      }
      forall i | 0 <= i < |b|
        ensures b[i].comp == c.index
      {
        assert b[i] in b;
        RowsHave(s, c, row * c.v + y, col * G.McuWidth(s, c), G.McuHeight(s, c), b[i]);
      }
    }
  }

  /** A place of the scan: an MCU of it. */
  ghost predicate IsMcuAt(p: G.Picture, s: G.Scan, row: nat, y: nat, col: nat)
    requires G.ValidScan(p, s)
  {
    row < G.TotalRows(p) && y < G.McuRows(p, s, row) && col < G.McusPerRow(p, s)
  }

  lemma SameGroup(a: nat, b: nat, k: nat, x: nat)
    requires a * k <= x < a * k + k && b * k <= x < b * k + k
    ensures a == b
  {
    if a < b {
      MulMono(a + 1, b, k);
      MulDistributes(a, 1, k);
    }
    if b < a {
      MulMono(b + 1, a, k);
      MulDistributes(b, 1, k);
    }
  }

  lemma RowsWithin(p: G.Picture, s: G.Scan, row: nat)
    requires G.ValidScan(p, s)
    ensures if |s| == 1 then G.McuRows(p, s, row) <= s[0].v else G.McuRows(p, s, row) == 1
  {
    assert s[0] in p.comps;
  }

  /** Different MCUs have no place in common. */
  lemma OneMcuEach(p: G.Picture, s: G.Scan, row: nat, y: nat, col: nat, row': nat, y': nat, col': nat, q: Place)
    requires G.ValidScan(p, s) && OneEach(s) && y < G.McuRows(p, s, row) && y' < G.McuRows(p, s, row')
    requires q in McuPlaces(s, row, y, col) && q in McuPlaces(s, row', y', col')
    ensures row == row' && y == y' && col == col'
  {
    McuHas(s, row, y, col, |s|, q);
    McuHas(s, row', y', col', |s|, q);
    var i :| 0 <= i < |s| && InGroup(s, s[i], row, y, col, q);
    var j :| 0 <= j < |s| && InGroup(s, s[j], row', y', col', q);
    assert i == j;
    RowsWithin(p, s, row);
    RowsWithin(p, s, row');
    var c := s[i];
    SameGroup(col, col', G.McuWidth(s, c), q.col);
    SameGroup(row, row', c.v, q.row);
  }

  ghost predicate Earlier(row: nat, y: nat, col: nat, row': nat, y': nat, col': nat)
  {
    row < row' || (row == row' && (y < y' || (y == y' && col < col')))
  }

  /** Where the controller may stand. */
  ghost predicate IsStop(p: G.Picture, s: G.Scan, row: nat, y: nat, col: nat)
    requires G.ValidScan(p, s)
  {
    if row < G.TotalRows(p) then y <= G.McuRows(p, s, row) && (if y < G.McuRows(p, s, row) then col <= G.McusPerRow(p, s) else col == 0)
    else row == G.TotalRows(p) && y == 0 && col == 0
  }

  lemma {:induction false} LaidOutMcu(p: G.Picture, s: G.Scan, row: nat, y: nat, col: nat, i: nat)
      returns (row': nat, y': nat, col': nat)
    requires G.ValidScan(p, s) && IsStop(p, s, row, y, col) && i < |LayoutBefore(p, s, row, y, col)|
    ensures IsMcuAt(p, s, row', y', col') && Earlier(row', y', col', row, y, col)
    ensures LayoutBefore(p, s, row, y, col)[i] == McuPlaces(s, row', y', col')
    decreases row, y, col
  {
    hide McuPlaces, G.TotalRows, G.McusPerRow, G.McuRows;
    if col > 0 {
      if i < |LayoutBefore(p, s, row, y, col - 1)| {
        row', y', col' := LaidOutMcu(p, s, row, y, col - 1, i);
      } else {
        row', y', col' := row, y, col - 1;
      }
    } else if y > 0 {
      row', y', col' := LaidOutMcu(p, s, row, y - 1, G.McusPerRow(p, s), i);
    } else if row > 0 {
      row', y', col' := LaidOutMcu(p, s, row - 1, G.McuRows(p, s, row - 1), 0, i);
    }
  }

  lemma {:induction false} LayoutOnce(p: G.Picture, s: G.Scan, row: nat, y: nat, col: nat)
    requires G.ValidScan(p, s) && OneEach(s) && IsStop(p, s, row, y, col)
    ensures Distinct(LayoutBefore(p, s, row, y, col))
    decreases row, y, col
  {
    hide McuPlaces, G.TotalRows, G.McusPerRow, G.McuRows, OneEach;
    if col > 0 {
      LayoutOnce(p, s, row, y, col - 1);
      var before, last := LayoutBefore(p, s, row, y, col - 1), McuPlaces(s, row, y, col - 1);
      assert NoneTwice(last) by { McuPlacesOnce(s, row, y, col - 1); }
      forall i, j | 0 <= i < |before| && 0 <= j < |before[i]|
        ensures before[i][j] !in last
      {
        var row', y', col' := LaidOutMcu(p, s, row, y, col - 1, i);
        assert before[i][j] in before[i];
        if before[i][j] in last {
          OneMcuEach(p, s, row, y, col - 1, row', y', col', before[i][j]);
        }
      }
      AppendDistinct(before, last);
    } else if y > 0 {
      LayoutOnce(p, s, row, y - 1, G.McusPerRow(p, s));
    } else if row > 0 {
      LayoutOnce(p, s, row - 1, G.McuRows(p, s, row - 1), 0);
    }
  }

  lemma McuPlacesOnce(s: G.Scan, row: nat, y: nat, col: nat)
    requires OneEach(s)
    ensures NoneTwice(McuPlaces(s, row, y, col))
  {
    McuOnce(s, row, y, col, |s|);
  }

  lemma AppendDistinct(before: Layout, last: seq<Place>)
    requires Distinct(before) && NoneTwice(last)
    requires forall i, j :: 0 <= i < |before| && 0 <= j < |before[i]| ==> before[i][j] !in last
    ensures Distinct(before + [last])
  {
  }

  // ---- Every block is in its scans, and all blocks are in the arrays ----

  lemma {:induction false} LaysOut(p: G.Picture, s: G.Scan, row: nat, y: nat, col: nat, row': nat, y': nat, col': nat)
      returns (i: nat)
    requires G.ValidScan(p, s) && IsStop(p, s, row, y, col)
    requires IsMcuAt(p, s, row', y', col') && Earlier(row', y', col', row, y, col)
    ensures i < |LayoutBefore(p, s, row, y, col)| && LayoutBefore(p, s, row, y, col)[i] == McuPlaces(s, row', y', col')
    decreases row, y, col
  {
    hide McuPlaces, G.TotalRows, G.McusPerRow, G.McuRows;
    if col > 0 {
      if row == row' && y == y' && col == col' + 1 {
        i := |LayoutBefore(p, s, row, y, col - 1)|;
      } else {
        i := LaysOut(p, s, row, y, col - 1, row', y', col');
      }
    } else if y > 0 {
      i := LaysOut(p, s, row, y - 1, G.McusPerRow(p, s), row', y', col');
    } else {
      i := LaysOut(p, s, row - 1, G.McuRows(p, s, row - 1), 0, row', y', col');
    }
  }

  lemma McuInLayout(p: G.Picture, s: G.Scan, row: nat, y: nat, col: nat, q: Place)
    requires G.ValidScan(p, s) && IsMcuAt(p, s, row, y, col) && q in McuPlaces(s, row, y, col)
    ensures InLayout(LayoutOf(p, s), q)
  {
    hide McuPlaces, G.TotalRows, G.McuRows, G.McusPerRow, LayoutBefore;
    var i := LaysOut(p, s, G.TotalRows(p), 0, 0, row, y, col);
    var m := McuPlaces(s, row, y, col);
    var j :| 0 <= j < |m| && m[j] == q;
    assert LayoutOf(p, s)[i][j] == q;
  }

  /** The MCU of a block of the picture, in a scan of several components and in one of its own. */
  lemma McuOfBlock(p: G.Picture, s: G.Scan, ci: nat, q: Place) returns (row: nat, y: nat, col: nat)
    requires G.ValidScan(p, s) && ci < |s| && InPicture(p, q) && q.comp == s[ci].index
    ensures IsMcuAt(p, s, row, y, col) && InGroup(s, s[ci], row, y, col, q)
  {
    var c := s[ci];
    assert c in p.comps && p.comps[q.comp] == c;
    Split(q.row, c.v);
    Split(q.col, c.h);
    row := q.row / c.v;
    O.InGroups(p, c, row, q.row % c.v, q.col / c.h, q.col % c.h);
    if |s| == 1 {
      y, col := q.row % c.v, q.col;
      C.Rows(p, s, c, row);
    } else {
      y, col := 0, q.col / c.h;
    }
  }

  lemma Split(n: nat, k: nat)
    requires k > 0
    ensures n == n / k * k + n % k && n % k < k
  {
  }

  lemma BlockInLayout(p: G.Picture, s: G.Scan, ci: nat, q: Place)
    requires G.ValidScan(p, s) && ci < |s| && InPicture(p, q) && q.comp == s[ci].index
    ensures InLayout(LayoutOf(p, s), q)
  {
    var row, y, col := McuOfBlock(p, s, ci, q);
    McuHas(s, row, y, col, |s|, q);
    McuInLayout(p, s, row, y, col, q);
  }

  /** Every place of a scan is in the arrays; the only blocks of a scan of one component are those of the picture. */
  lemma GroupInArray(p: G.Picture, s: G.Scan, ci: nat, row: nat, y: nat, col: nat, q: Place)
    requires G.ValidScan(p, s) && ci < |s| && IsMcuAt(p, s, row, y, col) && InGroup(s, s[ci], row, y, col, q)
    ensures InArray(p, q) && (|s| == 1 ==> InPicture(p, q))
  {
    var c := s[ci];
    assert c in p.comps && p.comps[q.comp] == c;
    MulMono(row + 1, G.TotalRows(p), c.v);
    MulDistributes(row, 1, c.v);
    RowsWithin(p, s, row);
    if |s| == 1 {
      C.Rows(p, s, c, row);
      G.GroupsOfBlocks(p.width, c.h, p.maxH * p.blockSize);
      G.DivUpBounds(G.WidthInBlocks(p, c), c.h);
    } else {
      MulMono(col + 1, G.DivUp(p.width, p.maxH * p.blockSize), c.h);
      MulDistributes(col, 1, c.h);
    }
  }

  lemma LayoutInArray(p: G.Picture, s: G.Scan, i: nat, j: nat)
    requires G.ValidScan(p, s) && i < |LayoutOf(p, s)| && j < |LayoutOf(p, s)[i]|
    ensures var q := LayoutOf(p, s)[i][j];
      && InArray(p, q) && (|s| == 1 ==> InPicture(p, q))
      && exists ci :: 0 <= ci < |s| && s[ci].index == q.comp
  {
    hide LayoutBefore, McuPlaces, G.McuRows, G.TotalRows, G.McusPerRow, InArray, InPicture;
    var q := LayoutOf(p, s)[i][j];
    var row, y, col := LaidOutMcu(p, s, G.TotalRows(p), 0, 0, i);
    assert q in LayoutOf(p, s)[i];
    var ci := GroupOfPlace(s, row, y, col, q);
    GroupInArray(p, s, ci, row, y, col, q);
  }

  lemma GroupOfPlace(s: G.Scan, row: nat, y: nat, col: nat, q: Place) returns (ci: nat)
    requires q in McuPlaces(s, row, y, col)
    ensures ci < |s| && InGroup(s, s[ci], row, y, col, q)
  {
    McuHas(s, row, y, col, |s|, q);
    ci :| 0 <= ci < |s| && InGroup(s, s[ci], row, y, col, q);
  }

  lemma LayoutSizes(p: G.Picture, s: G.Scan, i: nat)
    requires G.ValidScan(p, s) && i < |LayoutOf(p, s)|
    ensures |LayoutOf(p, s)[i]| == G.BlocksInMcu(s, |s|)
  {
    hide LayoutBefore, G.McuRows, G.TotalRows, G.McusPerRow;
    var row, y, col := LaidOutMcu(p, s, G.TotalRows(p), 0, 0, i);
    PlacesCount(s, row, y, col, |s|);
  }

  /** A scan has places of exactly its own components. */
  lemma CompsOf(p: G.Picture, s: G.Scan, c: nat)
    requires G.ValidScan(p, s)
    ensures HasComp(LayoutOf(p, s), c) <==> exists ci :: 0 <= ci < |s| && s[ci].index == c
  {
    hide LayoutBefore, LayoutOf, InArray, InPicture;
    var layout := LayoutOf(p, s);
    if HasComp(layout, c) {
      var i, j :| 0 <= i < |layout| && 0 <= j < |layout[i]| && layout[i][j].comp == c;
      LayoutInArray(p, s, i, j);
    }
    if ci :| 0 <= ci < |s| && s[ci].index == c {
      FirstBlock(p, s, ci);
      BlockInLayout(p, s, ci, Place(c, 0, 0));
      var i, j := Where(layout, Place(c, 0, 0));
      assert layout[i][j].comp == c;
    }
  }

  lemma FirstBlock(p: G.Picture, s: G.Scan, ci: nat)
    requires G.ValidScan(p, s) && ci < |s|
    ensures InPicture(p, Place(s[ci].index, 0, 0))
  {
    var c := s[ci];
    assert c in p.comps;
    G.GroupsOfBlocks(p.width, c.h, p.maxH * p.blockSize);
    G.GroupsOfBlocks(p.height, c.v, p.maxV * p.blockSize);
  }

  // ---- The blocks that are sent ----

  ghost function ArrayPlaces(p: G.Picture): (r: set<Place>)
    requires G.ValidPicture(p)
    ensures forall q :: q in r <==> InArray(p, q)
  {
    var r := set c, row, col | 0 <= c < |p.comps| && 0 <= row < ArrayRows(p, p.comps[c]) && 0 <= col < ArrayCols(p, p.comps[c])
      :: Place(c, row, col);
    assert forall q :: q in r <==> InArray(p, q) by {
      forall q | InArray(p, q) ensures q in r {
        assert q == Place(q.comp, q.row, q.col);
      }
    }
    r
  }

  ghost function PicturePlaces(p: G.Picture): (r: set<Place>)
    requires G.ValidPicture(p)
    ensures forall q :: q in r <==> InArray(p, q) && InPicture(p, q)
  {
    set q | q in ArrayPlaces(p) && InPicture(p, q)
  }

  /** The coefficient arrays of the compressor: real blocks, and the dummy blocks around them. */
  ghost function SourceArrays(p: G.Picture, dct: G.Dct): (a: Arrays)
    requires G.ValidPicture(p)
    ensures a.Keys == ArrayPlaces(p) && IsArrays(a)
    ensures forall q :: q in a ==> a[q] == G.Padded(p, dct, p.comps[q.comp], q.row, q.col)
  {
    map q | q in ArrayPlaces(p) :: G.Padded(p, dct, p.comps[q.comp], q.row, q.col)
  }

  lemma PickAppend(a: seq<Place>, b: seq<Place>, src: Arrays)
    ensures PickMcu(a + b, src) == PickMcu(a, src) + PickMcu(b, src)
  {
  }

  lemma {:induction false} PickRows(p: G.Picture, dct: G.Dct, s: G.Scan, c: G.Component, row: nat, col: nat, n: nat)
    requires G.ValidScan(p, s) && c in p.comps
    requires forall q :: q in PlaceRows(s, c, row, col, n) ==> InArray(p, q)
    ensures PickMcu(PlaceRows(s, c, row, col, n), SourceArrays(p, dct)) == G.RowsOf(p, dct, s, c, row, col, n)
    decreases n
  {
    hide InArray, SourceArrays, G.Padded;
    if n > 0 {
      var a, b := PlaceRows(s, c, row, col, n - 1), PlaceRow(c, row + n - 1, col, G.McuWidth(s, c));
      PickRows(p, dct, s, c, row, col, n - 1);
      PickAppend(a, b, SourceArrays(p, dct));
      assert p.comps[c.index] == c;
      forall x | 0 <= x < |b|
        ensures PickMcu(b, SourceArrays(p, dct))[x] == G.Padded(p, dct, c, row + n - 1, col + x)
      {
        assert b[x] in b && b[x] in PlaceRows(s, c, row, col, n);
      }
    }
  }

  /** The controller's MCU is what the arrays have at its places. */
  lemma {:induction false} PickPlaces(p: G.Picture, dct: G.Dct, s: G.Scan, row: nat, y: nat, col: nat, n: nat)
    requires G.ValidScan(p, s) && n <= |s|
    requires forall q :: q in PlacesIn(s, row, y, col, n) ==> InArray(p, q)
    ensures PickMcu(PlacesIn(s, row, y, col, n), SourceArrays(p, dct)) == G.McuOf(p, dct, s, row, y, col, n)
    decreases n
  {
    hide InArray, SourceArrays, PickMcu, G.RowsOf, PlaceRows;
    if n > 0 {
      var c := s[n - 1];
      assert c in p.comps;
      var a, b := PlacesIn(s, row, y, col, n - 1), PlaceRows(s, c, row * c.v + y, col * G.McuWidth(s, c), G.McuHeight(s, c));
      PickPlaces(p, dct, s, row, y, col, n - 1);
      PickRows(p, dct, s, c, row * c.v + y, col * G.McuWidth(s, c), G.McuHeight(s, c));
      PickAppend(a, b, SourceArrays(p, dct));
    } else {
      assert PickMcu([], SourceArrays(p, dct)) == [];
    }
  }

  lemma McuPicked(p: G.Picture, dct: G.Dct, s: G.Scan, row: nat, y: nat, col: nat)
    requires G.ValidScan(p, s) && IsMcuAt(p, s, row, y, col)
    ensures PickMcu(McuPlaces(s, row, y, col), SourceArrays(p, dct)) == G.TheMcu(p, dct, s, row, y, col)
  {
    hide InArray, InPicture, IsMcuAt;
    forall q | q in McuPlaces(s, row, y, col)
      ensures InArray(p, q)
    {
      var ci := GroupOfPlace(s, row, y, col, q);
      GroupInArray(p, s, ci, row, y, col, q);
    }
    PickPlaces(p, dct, s, row, y, col, |s|);
  }

  lemma PickSnoc(layout: Layout, last: seq<Place>, src: Arrays)
    ensures Pick(layout + [last], src) == Pick(layout, src) + [PickMcu(last, src)]
  {
  }

  /** The sequence of MCUs that the controller hands over is what the arrays have at the places of the scan. */
  lemma {:induction false} PickBefore(p: G.Picture, dct: G.Dct, s: G.Scan, row: nat, y: nat, col: nat)
    requires G.ValidScan(p, s) && IsStop(p, s, row, y, col)
    ensures Pick(LayoutBefore(p, s, row, y, col), SourceArrays(p, dct)) == G.Before(p, dct, s, row, y, col)
    decreases row, y, col
  {
    hide SourceArrays, PickMcu, McuPlaces, G.TheMcu, G.TotalRows, G.McuRows, G.McusPerRow;
    if col > 0 {
      PickBefore(p, dct, s, row, y, col - 1);
      McuPicked(p, dct, s, row, y, col - 1);
      PickSnoc(LayoutBefore(p, s, row, y, col - 1), McuPlaces(s, row, y, col - 1), SourceArrays(p, dct));
    } else if y > 0 {
      PickBefore(p, dct, s, row, y - 1, G.McusPerRow(p, s));
    } else if row > 0 {
      PickBefore(p, dct, s, row - 1, G.McuRows(p, s, row - 1), 0);
    } else {
      assert Pick([], SourceArrays(p, dct)) == [];
    }
  }

  // ---- Scans of a picture ----

  /** MCU_membership */
  function Membership(s: G.Scan, n: nat): (m: seq<nat>)
    requires n <= |s|
    ensures |m| == G.BlocksInMcu(s, n)
  {
    if n == 0 then []
    else Membership(s, n - 1) + seq(G.McuHeight(s, s[n - 1]) * G.McuWidth(s, s[n - 1]), i => n - 1)
  }

  lemma RowsOfComp(s: G.Scan, c: G.Component, row: nat, col: nat, n: nat, k: nat)
    requires k < |PlaceRows(s, c, row, col, n)|
    ensures PlaceRows(s, c, row, col, n)[k].comp == c.index
  {
    RowsHave(s, c, row, col, n, PlaceRows(s, c, row, col, n)[k]);
  }

  lemma {:induction false} MemberIn(s: G.Scan, row: nat, y: nat, col: nat, n: nat, k: nat)
    requires n <= |s| && k < |PlacesIn(s, row, y, col, n)|
    ensures k < |Membership(s, n)| && Membership(s, n)[k] < n
    ensures PlacesIn(s, row, y, col, n)[k].comp == s[Membership(s, n)[k]].index
    decreases n
  {
    hide PlaceRows;
    PlacesCount(s, row, y, col, n);
    var before := PlacesIn(s, row, y, col, n - 1);
    PlacesCount(s, row, y, col, n - 1);
    if k < |before| {
      MemberIn(s, row, y, col, n - 1, k);
    } else {
      var c := s[n - 1];
      RowsOfComp(s, c, row * c.v + y, col * G.McuWidth(s, c), G.McuHeight(s, c), k - |before|);
    }
  }

  /** Block k of every MCU is a block of the component that MCU_membership[k] names. */
  lemma MembershipIs(p: G.Picture, s: G.Scan, i: nat, k: nat)
    requires G.ValidScan(p, s) && i < |LayoutOf(p, s)| && k < |LayoutOf(p, s)[i]|
    ensures k < |Membership(s, |s|)| && Membership(s, |s|)[k] < |s|
    ensures LayoutOf(p, s)[i][k].comp == s[Membership(s, |s|)[k]].index
  {
    hide LayoutBefore, PlacesIn, G.McuRows, G.TotalRows, G.McusPerRow;
    var row, y, col := LaidOutMcu(p, s, G.TotalRows(p), 0, 0, i);
    MemberIn(s, row, y, col, |s|, k);
  }

  /** A scan of some components of the picture: an entry of the scan script. */
  datatype Plan = Plan(s: Scan, comps: G.Scan)

  /** The scan as it is coded, and the bytes that follow it. */
  datatype PictureScan = PictureScan(plan: Plan, parts: seq<Part>, last: Part, tail: seq<byte>)

  /** The parameters of the coder are those of the controller. */
  ghost predicate Describes(p: G.Picture, x: Plan)
  {
    && ValidScan(x.s) && G.ValidScan(p, x.comps) && OneEach(x.comps)
    && |x.s.comps| == |x.comps| && x.s.membership == Membership(x.comps, |x.comps|)
  }

  /** All MCUs that the controller hands over have been coded. */
  ghost predicate SentScan(p: G.Picture, dct: G.Dct, tab: seq<int>, x: PictureScan)
  {
    && Describes(p, x.plan)
    && ScanParts(x.plan.s, tab, x.parts, x.last) && StartsWithMarker(x.tail)
    && AllMcus(x.parts, x.last) == O.AllMcus(p, dct, x.plan.comps)
    && CarriesAll(x.plan.s, x.parts, x.last)
  }

  function Placed(p: G.Picture, x: PictureScan): Sent
    requires G.ValidScan(p, x.plan.comps)
  {
    Sent(x.plan.s, LayoutOf(p, x.plan.comps), x.parts, x.last, x.tail)
  }

  lemma ScanSent(p: G.Picture, dct: G.Dct, tab: seq<int>, x: PictureScan)
    requires G.ValidPicture(p) && SentScan(p, dct, tab, x)
    ensures SentFrom(tab, SourceArrays(p, dct), Placed(p, x))
  {
    hide ScanParts, CarriesAll, LayoutOf, SourceArrays, InArray, InPicture, ValidScan, Distinct;
    var layout, src := LayoutOf(p, x.plan.comps), SourceArrays(p, dct);
    forall i | 0 <= i < |layout|
      ensures |layout[i]| == |x.plan.s.membership|
    {
      LayoutSizes(p, x.plan.comps, i);
    }
    forall i, j | 0 <= i < |layout| && 0 <= j < |layout[i]|
      ensures layout[i][j] in src
    {
      LayoutInArray(p, x.plan.comps, i, j);
    }
    WholeLayout(p, dct, x.plan.comps);
  }

  lemma WholeLayout(p: G.Picture, dct: G.Dct, s: G.Scan)
    requires G.ValidScan(p, s) && OneEach(s)
    ensures Distinct(LayoutOf(p, s)) && Pick(LayoutOf(p, s), SourceArrays(p, dct)) == O.AllMcus(p, dct, s)
  {
    LayoutOnce(p, s, G.TotalRows(p), 0, 0);
    PickBefore(p, dct, s, G.TotalRows(p), 0, 0);
  }

  ghost predicate HasIndex(s: G.Scan, c: nat)
  {
    exists ci :: 0 <= ci < |s| && s[ci].index == c
  }

  /** A first scan takes up coefficients of its components that have not been sent; a refinement lowers their bit
      position by one. */
  ghost predicate LegalScan(x: Plan, order: seq<nat>, at: Positions)
  {
    x.s.order == order && forall c :: 0 <= c < |at| && HasIndex(x.comps, c) ==> Legal(x.s, at[c])
  }

  lemma ScanLegal(p: G.Picture, x: Plan, order: seq<nat>, at: Positions)
    requires G.ValidPicture(p) && Describes(p, x) && LegalScan(x, order, at)
    ensures LegalPass(x.s, LayoutOf(p, x.comps), PicturePlaces(p), order, at)
  {
    hide InArray, InPicture, LayoutOf, ValidScan, IsOrder, Legal;
    var layout := LayoutOf(p, x.comps);
    forall c | 0 <= c < |at| && HasComp(layout, c)
      ensures Legal(x.s, at[c])
    {
      CompsOf(p, x.comps, c);
    }
    if KindOf(x.s).AcRefine? {
      OneComponent(p, x);
      forall i, j | 0 <= i < |layout| && 0 <= j < |layout[i]|
        ensures layout[i][j] in PicturePlaces(p)
      {
        LayoutInArray(p, x.comps, i, j);
      }
    }
    forall q | q in PicturePlaces(p) && HasComp(layout, q.comp)
      ensures InLayout(layout, q)
    {
      CompsOf(p, x.comps, q.comp);
      var ci :| 0 <= ci < |x.comps| && x.comps[ci].index == q.comp;
      BlockInLayout(p, x.comps, ci, q);
    }
  }

  /** An AC scan has one component. */
  lemma OneComponent(p: G.Picture, x: Plan)
    requires Describes(p, x) && KindOf(x.s).AcRefine?
    ensures |x.comps| == 1
  {
    EveryComponent(p, x.comps, |x.comps|);
  }

  lemma {:induction false} EveryComponent(p: G.Picture, s: G.Scan, n: nat)
    requires G.ValidScan(p, s) && n <= |s|
    ensures G.BlocksInMcu(s, n) >= n
    decreases n
  {
    if n > 0 {
      EveryComponent(p, s, n - 1);
      assert s[n - 1] in p.comps;
      MulMono(1, G.McuHeight(s, s[n - 1]), G.McuWidth(s, s[n - 1]));
    }
  }

  // ---- Whole files ----

  ghost function Next(x: Plan, at: Positions): (r: Positions)
    requires ArePositions(at)
    ensures |r| == |at| && ArePositions(r)
  {
    seq(|at|, c requires 0 <= c < |at| => if HasIndex(x.comps, c) then Advanced(x.s, at[c]) else at[c])
  }

  /** The bit positions of each component after the scans. */
  ghost function Reaches(script: seq<Plan>, at: Positions): (r: Positions)
    requires ArePositions(at)
    ensures |r| == |at| && ArePositions(r)
    decreases |script|
  {
    if script == [] then at else Reaches(script[1..], Next(script[0], at))
  }

  ghost predicate LegalPlans(script: seq<Plan>, order: seq<nat>, at: Positions)
    requires ArePositions(at)
    decreases |script|
  {
    script != [] ==> LegalScan(script[0], order, at) && LegalPlans(script[1..], order, Next(script[0], at))
  }

  function PlansOf(scans: seq<PictureScan>): (r: seq<Plan>)
    ensures |r| == |scans| && forall i :: 0 <= i < |r| ==> r[i] == scans[i].plan
  {
    seq(|scans|, i requires 0 <= i < |scans| => scans[i].plan)
  }

  // ---- Scripts that reach the last bit ----

  /** One sequential scan of all components with all coefficients. */
  lemma OneScan(p: G.Picture, x: Plan, order: seq<nat>)
    requires Describes(p, x) && !x.s.progressive && x.s.limSe == 63 && x.s.order == order
    requires forall c :: 0 <= c < |p.comps| ==> HasIndex(x.comps, c)
    ensures LegalPlans([x], order, Unsent(|p.comps|))
    ensures forall c :: 0 <= c < |p.comps| ==> Complete(Reaches([x], Unsent(|p.comps|)), c)
  {
    var at := Unsent(|p.comps|);
    assert Reaches([x][1..], Next(x, at)) == Next(x, at);
    assert Reaches([x], at) == Next(x, at);
  }

  /** The refinements of the coefficients of x from bit position n down to 0. */
  function Refinements(x: Plan, n: nat): seq<Plan>
  {
    if n == 0 then [] else [Plan(x.s.(ah := n, al := n - 1), x.comps)] + Refinements(x, n - 1)
  }

  /** A first scan of the coefficients down to bit position n, and then the refinements. */
  function Chain(x: Plan, n: nat): seq<Plan>
  {
    [Plan(x.s.(ah := 0, al := n), x.comps)] + Refinements(x, n)
  }

  /** The coefficients of x are at bit position b, the others where they were. */
  ghost function Brought(x: Plan, at: Positions, b: nat): (r: Positions)
    requires ArePositions(at)
    ensures |r| == |at| && ArePositions(r)
  {
    seq(|at|, c requires 0 <= c < |at| => if HasIndex(x.comps, c) then Lowered(x.s, at[c], b) else at[c])
  }

  ghost function Lowered(s: Scan, at: Progress, b: nat): (r: Progress)
    requires IsProgress(at)
    ensures IsProgress(r) && forall k :: 0 <= k < 64 ==> r[k] == if Touches(s, k) then b else at[k]
  {
    seq(64, k requires 0 <= k < 64 => if Touches(s, k) then b else at[k])
  }

  /** In a progressive file the coefficients that a scan has do not depend on its bit positions. */
  lemma SameCoefficients(s: Scan, ah: nat, al: nat, k: nat)
    requires ValidScan(s) && s.progressive
    ensures ValidScan(s.(ah := ah, al := al)) && (Touches(s, k) <==> Touches(s.(ah := ah, al := al), k))
  {
  }

  /** A scan of the chain brings its coefficients to its own position. */
  lemma NextBrings(x: Plan, ah: nat, al: nat, at: Positions)
    requires ValidScan(x.s) && x.s.progressive && ArePositions(at)
    ensures Next(Plan(x.s.(ah := ah, al := al), x.comps), at) == Brought(x, at, al)
  {
    var y := Plan(x.s.(ah := ah, al := al), x.comps);
    forall c | 0 <= c < |at|
      ensures Next(y, at)[c] == Brought(x, at, al)[c]
    {
      forall k | 0 <= k < 64
        ensures Touches(x.s, k) <==> Touches(y.s, k)
      {
        SameCoefficients(x.s, ah, al, k);
      }
      assert Advanced(y.s, at[c]) == Lowered(x.s, at[c], al);
    }
  }

  lemma LegalLink(x: Plan, ah: nat, al: nat, order: seq<nat>, at: Positions)
    requires ValidScan(x.s) && x.s.progressive && x.s.order == order && ArePositions(at) && (ah != 0 ==> ah == al + 1)
    requires forall c, k :: 0 <= c < |at| && HasIndex(x.comps, c) && 0 <= k < 64 && Touches(x.s, k) ==>
      at[c][k] == if ah == 0 then -1 else ah
    ensures LegalScan(Plan(x.s.(ah := ah, al := al), x.comps), order, at)
  {
    forall k: nat
      ensures ValidScan(x.s.(ah := ah, al := al)) && (Touches(x.s, k) <==> Touches(x.s.(ah := ah, al := al), k))
    {
      SameCoefficients(x.s, ah, al, k);
    }
  }

  lemma {:induction false} RefinementsReach(x: Plan, n: nat, order: seq<nat>, at: Positions)
    requires ValidScan(x.s) && x.s.progressive && x.s.order == order && ArePositions(at) && at == Brought(x, at, n)
    ensures LegalPlans(Refinements(x, n), order, at) && Reaches(Refinements(x, n), at) == Brought(x, at, 0)
    decreases n
  {
    hide ValidScan, Touches, LegalScan, Next;
    if n > 0 {
      var y, next := Plan(x.s.(ah := n, al := n - 1), x.comps), Brought(x, at, n - 1);
      forall c, k | 0 <= c < |at| && HasIndex(x.comps, c) && 0 <= k < 64 && Touches(x.s, k)
        ensures at[c][k] == n
      {
        assert at[c] == Brought(x, at, n)[c] == Lowered(x.s, at[c], n);
      }
      LegalLink(x, n, n - 1, order, at);
      NextBrings(x, n, n - 1, at);
      BroughtAgain(x, at, n - 1, n - 1);
      BroughtAgain(x, at, n - 1, 0);
      RefinementsReach(x, n - 1, order, next);
      assert Refinements(x, n)[1..] == Refinements(x, n - 1);
    }
  }

  lemma BroughtAgain(x: Plan, at: Positions, b: nat, d: nat)
    requires ArePositions(at)
    ensures Brought(x, Brought(x, at, b), d) == Brought(x, at, d)
  {
    hide Touches;
    forall c | 0 <= c < |at| && HasIndex(x.comps, c)
      ensures Lowered(x.s, Lowered(x.s, at[c], b), d) == Lowered(x.s, at[c], d)
    {
    }
  }

  /** For any first bit position n, a first scan and the refinements below it are legal, and send their coefficients to
      the last bit. */
  lemma ChainReaches(x: Plan, n: nat, order: seq<nat>, at: Positions)
    requires ValidScan(x.s) && x.s.progressive && x.s.order == order && ArePositions(at)
    requires forall c, k :: 0 <= c < |at| && HasIndex(x.comps, c) && 0 <= k < 64 && Touches(x.s, k) ==> at[c][k] == -1
    ensures LegalPlans(Chain(x, n), order, at) && Reaches(Chain(x, n), at) == Brought(x, at, 0)
  {
    hide ValidScan, Touches, LegalScan, Next;
    LegalLink(x, 0, n, order, at);
    NextBrings(x, 0, n, at);
    BroughtAgain(x, at, n, n);
    BroughtAgain(x, at, n, 0);
    RefinementsReach(x, n, order, Brought(x, at, n));
    assert Chain(x, n)[1..] == Refinements(x, n);
  }

  // ---- What the scans of a file carry ----

  ghost predicate AllScansSent(p: G.Picture, dct: G.Dct, tab: seq<int>, scans: seq<PictureScan>)
  {
    forall i :: 0 <= i < |scans| ==> SentScan(p, dct, tab, scans[i])
  }

  function PlacedAll(p: G.Picture, scans: seq<PictureScan>): (r: seq<Sent>)
    requires forall i :: 0 <= i < |scans| ==> G.ValidScan(p, scans[i].plan.comps)
    ensures |r| == |scans| && forall i :: 0 <= i < |r| ==> r[i] == Placed(p, scans[i])
  {
    seq(|scans|, i requires 0 <= i < |scans| => Placed(p, scans[i]))
  }

  lemma SameAdvance(p: G.Picture, x: Plan, at: Positions)
    requires G.ValidScan(p, x.comps) && ArePositions(at)
    ensures AdvancedBy(x.s, LayoutOf(p, x.comps), at) == Next(x, at)
  {
    hide LayoutOf, Advanced;
    forall c | 0 <= c < |at|
      ensures HasComp(LayoutOf(p, x.comps), c) <==> HasIndex(x.comps, c)
    {
      CompsOf(p, x.comps, c);
    }
  }

  lemma {:induction false} ScansLegal(p: G.Picture, dct: G.Dct, tab: seq<int>, scans: seq<PictureScan>, order: seq<nat>,
                                      at: Positions)
    requires G.ValidPicture(p) && AllScansSent(p, dct, tab, scans) && ArePositions(at) && LegalPlans(PlansOf(scans), order, at)
    ensures forall i :: 0 <= i < |scans| ==> G.ValidScan(p, scans[i].plan.comps)
    ensures LegalScript(PlacedAll(p, scans), PicturePlaces(p), order, at)
    ensures Final(PlacedAll(p, scans), at) == Reaches(PlansOf(scans), at)
    decreases |scans|
  {
    hide LayoutOf, LegalScan, LegalPass, Next, AdvancedBy, ArePositions, ScanParts, CarriesAll;
    assert forall i :: 0 <= i < |scans| ==> SentScan(p, dct, tab, scans[i]);
    if scans != [] {
      assert SentScan(p, dct, tab, scans[0]);
      ScanLegal(p, scans[0].plan, order, at);
      SameAdvance(p, scans[0].plan, at);
      assert PlansOf(scans)[1..] == PlansOf(scans[1..]);
      ScansLegal(p, dct, tab, scans[1..], order, Next(scans[0].plan, at));
      assert PlacedAll(p, scans)[1..] == PlacedAll(p, scans[1..]);
    }
  }

  lemma ScansSent(p: G.Picture, dct: G.Dct, tab: seq<int>, scans: seq<PictureScan>)
    requires G.ValidPicture(p) && AllScansSent(p, dct, tab, scans)
    ensures forall i :: 0 <= i < |scans| ==> G.ValidScan(p, scans[i].plan.comps)
    ensures AllSent(tab, SourceArrays(p, dct), PlacedAll(p, scans))
  {
    hide SentFrom, Placed, SourceArrays;
    forall i | 0 <= i < |scans|
      ensures G.ValidScan(p, scans[i].plan.comps) && SentFrom(tab, SourceArrays(p, dct), Placed(p, scans[i]))
    {
      assert SentScan(p, dct, tab, scans[i]);
      ScanSent(p, dct, tab, scans[i]);
    }
  }

  /** The bytes of all scans, decoded one scan after the other into arrays of zeros, as the decoder meets them. */
  function DecodePicture(p: G.Picture, tab: seq<int>, scans: seq<PictureScan>, places: set<Place>): Maybe<Arrays>
    requires forall i :: 0 <= i < |scans| ==> G.ValidScan(p, scans[i].plan.comps)
    requires CanReceive(ArrivedAll(PlacedAll(p, scans)), places)
  {
    ReadScript(tab, ArrivedAll(PlacedAll(p, scans)), Zeros(places))
  }

  /** For every picture and every legal script of interleaved and single-component scans: what was handed to the coder
      by the controller comes back, and every block of the picture is in its place down to the bit positions that the
      script reaches. */
  lemma PictureReads(p: G.Picture, dct: G.Dct, tab: seq<int>, scans: seq<PictureScan>, order: seq<nat>)
    requires G.ValidPicture(p) && IsOrder(order) && AllScansSent(p, dct, tab, scans)
    requires LegalPlans(PlansOf(scans), order, Unsent(|p.comps|))
    ensures forall i :: 0 <= i < |scans| ==> G.ValidScan(p, scans[i].plan.comps)
    ensures CanReceive(ArrivedAll(PlacedAll(p, scans)), ArrayPlaces(p))
    ensures var r := DecodePicture(p, tab, scans, ArrayPlaces(p));
      && r.Some?
      && forall q :: q in PicturePlaces(p) ==>
        && q in r.value
        && Shows(G.RealBlock(dct, p.comps[q.comp], q.row, q.col), r.value[q], order, Reaches(PlansOf(scans), Unsent(|p.comps|))[q.comp])
  {
    hide InArray, InPicture, AllScansSent, LegalPlans, Reaches, Final, LegalScript, AllSent, CanReceive, ReadScript, Blank, Shows;
    var n, inside := |p.comps|, PicturePlaces(p);
    ScansSent(p, dct, tab, scans);
    ScansLegal(p, dct, tab, scans, order, Unsent(n));
    assert forall q :: q in ArrayPlaces(p) ==> q.comp < n by { PlacesHaveComps(p); }
    NothingSent(SourceArrays(p, dct), inside, order, n);
    ScriptReads(PlacedAll(p, scans), tab, SourceArrays(p, dct), Zeros(ArrayPlaces(p)), inside, order, Unsent(n));
    forall q | q in inside
      ensures q.comp < n && p.comps[q.comp].v > 0
      ensures SourceArrays(p, dct)[q] == G.RealBlock(dct, p.comps[q.comp], q.row, q.col)
    {
      RealSource(p, dct, q);
    }
  }

  lemma PlacesHaveComps(p: G.Picture)
    requires G.ValidPicture(p)
    ensures forall q :: InArray(p, q) ==> q.comp < |p.comps|
  {
  }

  lemma RealSource(p: G.Picture, dct: G.Dct, q: Place)
    requires G.ValidPicture(p) && q in PicturePlaces(p)
    ensures q.comp < |p.comps| && p.comps[q.comp].v > 0
    ensures SourceArrays(p, dct)[q] == G.RealBlock(dct, p.comps[q.comp], q.row, q.col)
  {
    O.RealAt(p, dct, p.comps[q.comp], q.row, q.col);
  }

  /** A script that sends all coefficients of all components to the last bit gives back every block of the picture
      exactly. */
  lemma WholePicture(p: G.Picture, dct: G.Dct, tab: seq<int>, scans: seq<PictureScan>, order: seq<nat>)
    requires G.ValidPicture(p) && IsOrder(order) && AllScansSent(p, dct, tab, scans)
    requires LegalPlans(PlansOf(scans), order, Unsent(|p.comps|))
    requires forall c :: 0 <= c < |p.comps| ==> Complete(Reaches(PlansOf(scans), Unsent(|p.comps|)), c)
    ensures forall i :: 0 <= i < |scans| ==> G.ValidScan(p, scans[i].plan.comps)
    ensures CanReceive(ArrivedAll(PlacedAll(p, scans)), ArrayPlaces(p))
    ensures var r := DecodePicture(p, tab, scans, ArrayPlaces(p));
      && r.Some?
      && forall q :: InPicture(p, q) ==>
           q in r.value && r.value[q] == G.RealBlock(dct, p.comps[q.comp], q.row, q.col)
  {
    hide InArray, InPicture, AllScansSent, LegalPlans, Reaches, CanReceive, DecodePicture, Shows;
    PictureReads(p, dct, tab, scans, order);
    var r, at := DecodePicture(p, tab, scans, ArrayPlaces(p)), Reaches(PlansOf(scans), Unsent(|p.comps|));
    forall q | InPicture(p, q)
      ensures q.comp < |p.comps| && p.comps[q.comp].v > 0
      ensures q in r.value && r.value[q] == G.RealBlock(dct, p.comps[q.comp], q.row, q.col)
    {
      PictureInArrays(p, q);
      assert Complete(at, q.comp);
      CompleteBlock(G.RealBlock(dct, p.comps[q.comp], q.row, q.col), r.value[q], order, at[q.comp]);
    }
  }

  lemma PictureInArrays(p: G.Picture, q: Place)
    requires G.ValidPicture(p) && InPicture(p, q)
    ensures q.comp < |p.comps| && p.comps[q.comp].v > 0 && InArray(p, q) && q in PicturePlaces(p)
  {
    var s := [p.comps[q.comp]];
    var row, y, col := McuOfBlock(p, s, 0, q);
    GroupInArray(p, s, 0, row, y, col, q);
  }
}
