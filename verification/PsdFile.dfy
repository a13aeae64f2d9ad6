/** Where everything is in the image data of a PSD file, byte by byte. */
module PsdFile {
  import opened Numbers
  import opened PackBits
  import opened PsdRows
  import opened PsdImageData

  /** Where the samples of channel c begin in the pixels of a bitmap: red, green and blue are the third, second and first. */
  function OffsetOf(l: Layout, c: nat): nat
  {
    if l.rgb && c == 0 then 2 else if l.rgb && c == 2 then 0 else c
  }

  /** Rows are ordered by channel, and from top to bottom, which is the other way round in a bitmap. */
  lemma RowIndex(l: Layout, b: Bitmap, c: nat, h: nat)
    requires ValidBitmap(l, b) && c < l.spp && h < l.height
    ensures c * l.height + h < |AllRows(l, b)| == l.spp * l.height
    ensures OffsetOf(l, c) < l.spp && ValidScan(l, b[l.height - 1 - h])
    ensures AllRows(l, b)[c * l.height + h] == LineBytes(l, b[l.height - 1 - h], OffsetOf(l, c), l.n)
  {
    hide LineBytes;
    RowCount(l, b, c, h);
    RowCount(l, b, l.spp, 0);
    RowAt(l, b, c, h);
    RowIs(l, b, c, h, OffsetOf(l, c));
  }

  lemma {:induction false} JoinedEqual(items: seq<seq<byte>>, n: nat, j: nat)
    requires j <= |items| && forall i :: 0 <= i < |items| ==> |items[i]| == n
    ensures |Joined(items[..j])| == j * n
  {
    if j > 0 {
      JoinedEqual(items, n, j - 1);
      assert items[..j][..j - 1] == items[..j - 1];
      MulDistributes(j - 1, 1, n);
    }
  }

  lemma ItemIn(items: seq<seq<byte>>, j: nat, k: nat, at: nat)
    requires j < |items| && k < |items[j]| && at == |Joined(items[..j])| + k
    ensures at < |Joined(items)| && Joined(items)[at] == items[j][k]
  {
    assert items[..j + 1] == items[..j] + [items[j]];
    JoinedSnoc(items[..j], items[j]);
    JoinedGrows(items, j + 1);
  }

  lemma RowsEqual(l: Layout, b: Bitmap)
    requires ValidBitmap(l, b)
    ensures forall i :: 0 <= i < |AllRows(l, b)| ==> |AllRows(l, b)[i]| == l.n * l.bytes
  {
    forall i | 0 <= i < |AllRows(l, b)| ensures |AllRows(l, b)[i]| == l.n * l.bytes {
      EveryRow(l, b, l.spp, 0, i);
    }
  }

  /** The bytes of raw image data that are the samples of the bitmap. */
  ghost predicate RawByte(l: Layout, b: Bitmap, data: seq<byte>, c: nat, h: nat, i: nat, j: nat)
  {
    var at, y, k := 2 + (c * l.height + h) * (l.n * l.bytes) + (i * l.bytes + j), l.height - 1 - h, OffsetOf(l, c) + i * l.spp;
    && at < |data| && 0 <= y < |b| && k < |b[y]| && j < l.bytes == |b[y][k]|
    && data[at] == b[y][k][l.bytes - 1 - j]
  }

  /** Raw image data: compression 0, and then nothing but the samples: channel by channel, row by row from the top,
      pixel by pixel, the most significant byte first. */
  lemma RawImage(l: Layout, b: Bitmap, version: nat)
    requires ValidBitmap(l, b)
    ensures var data := ImageData(l, b, false, version);
      && |data| == 2 + l.spp * l.height * (l.n * l.bytes) && data[..2] == [0, 0]
      && forall c, h, i, j :: 0 <= c < l.spp && 0 <= h < l.height && 0 <= i < l.n && 0 <= j < l.bytes ==>
           RawByte(l, b, data, c, h, i, j)
  {
    var rows, data := AllRows(l, b), ImageData(l, b, false, version);
    var word := Word(0);
    hide AllRows, Joined, BeBytes, ValidBitmap, RawByte;
    RowsEqual(l, b);
    RowCount(l, b, l.spp, 0);
    JoinedEqual(rows, l.n * l.bytes, |rows|);
    assert rows[..|rows|] == rows;
    assert |rows| == l.spp * l.height by { AllRowsAre(l, b); }
    assert data == word + Joined(rows) by { assert word + [] == word; }
    forall c, h, i, j | 0 <= c < l.spp && 0 <= h < l.height && 0 <= i < l.n && 0 <= j < l.bytes
      ensures RawByte(l, b, data, c, h, i, j)
    {
      RawSample(l, b, word, data, c, h, i, j);
    }
  }

  lemma RawSample(l: Layout, b: Bitmap, word: seq<byte>, data: seq<byte>, c: nat, h: nat, i: nat, j: nat)
    requires ValidBitmap(l, b) && |word| == 2 && data == word + Joined(AllRows(l, b))
    requires c < l.spp && h < l.height && i < l.n && j < l.bytes
    ensures RawByte(l, b, data, c, h, i, j)
  {
    hide AllRows, Joined, LineBytes;
    var rows, r, k := AllRows(l, b), c * l.height + h, i * l.bytes + j;
    RowIndex(l, b, c, h);
    var off, scan := OffsetOf(l, c), b[l.height - 1 - h];
    RowsEqual(l, b);
    JoinedEqual(rows, l.n * l.bytes, r);
    ByteInLine(l, scan, off, i, j);
    assert rows[r][k] == scan[off + i * l.spp][l.bytes - 1 - j];
    ItemIn(rows, r, k, r * (l.n * l.bytes) + k);
  }

  lemma Word(v: nat) returns (w: seq<byte>)
    requires v < 256
    ensures w == BeBytes(v, 2) == [0, v]
  {
    w := BeBytes(v, 2);
    assert BeBytes(v / 256, 1) == BeBytes(0, 0) + [0];
  }

  // ---- Run-length coded ----

  /** Where packed row r begins: behind the compression, the size table and the rows before it. */
  function RowStart(l: Layout, b: Bitmap, version: nat, r: nat): nat
    requires ValidBitmap(l, b) && r <= |AllRows(l, b)|
  {
    if r == 0 then 2 + l.spp * l.height * (if version == 1 then 2 else 4)
    else RowStart(l, b, version, r - 1) + |Pack(AllRows(l, b)[r - 1])|
  }

  function TwoBytes(data: seq<byte>, at: nat): int
    requires at + 2 <= |data|
  {
    var b0: int, b1: int := data[at], data[at + 1];
    0x100 * b0 + b1
  }

  /** Row r of run-length coded image data: its length in the size table, two bytes in files of version 1 and four in
      others, and its packets. */
  ghost predicate PackedRow(l: Layout, b: Bitmap, version: nat, data: seq<byte>, r: nat)
    requires ValidBitmap(l, b) && r < |AllRows(l, b)|
  {
    var row, start := Pack(AllRows(l, b)[r]), RowStart(l, b, version, r);
    && start + |row| <= |data| && data[start..start + |row|] == row
    && if version == 1 then 2 * r + 4 <= |data| && TwoBytes(data, 2 * r + 2) == |row|
       else 4 * r + 6 <= |data| && 0x1_0000 * TwoBytes(data, 4 * r + 2) + TwoBytes(data, 4 * r + 4) == |row|
  }

  lemma {:induction false} StartIs(l: Layout, b: Bitmap, version: nat, r: nat)
    requires ValidBitmap(l, b) && r <= |AllRows(l, b)|
    ensures RowStart(l, b, version, r)
         == 2 + l.spp * l.height * (if version == 1 then 2 else 4) + |Joined(Items(AllRows(l, b), true)[..r])|
    decreases r
  {
    hide AllRows, Pack;
    var items := Items(AllRows(l, b), true);
    if r > 0 {
      StartIs(l, b, version, r - 1);
      assert items[..r] == items[..r - 1] + [items[r - 1]];
      JoinedSnoc(items[..r - 1], items[r - 1]);
    }
  }

  /** Run-length coded image data: compression 1, the size table, and the packed rows one after the other. */
  lemma PackedImage(l: Layout, b: Bitmap, version: nat)
    requires ValidBitmap(l, b) && SizesFit(l, b, version)
    ensures var data := ImageData(l, b, true, version);
      && data[..2] == [0, 1] && |data| == RowStart(l, b, version, |AllRows(l, b)|)
      && forall r :: 0 <= r < |AllRows(l, b)| ==> PackedRow(l, b, version, data, r)
  {
    var items, data := Items(AllRows(l, b), true), ImageData(l, b, true, version);
    var k := if version == 1 then 2 else 4;
    var word := Word(1);
    hide AllRows, Joined, Table, BeBytes, ValidBitmap, PackedRow, Items, SizesFit;
    TableLength(Sizes(items), k);
    RowTotal(l, b, true);
    StartIs(l, b, version, |items|);
    assert items[..|items|] == items;
    forall r | 0 <= r < |items| ensures PackedRow(l, b, version, data, r) {
      PackedRowIs(l, b, version, word, data, r);
    }
  }

  lemma PackedRowIs(l: Layout, b: Bitmap, version: nat, word: seq<byte>, data: seq<byte>, r: nat)
    requires ValidBitmap(l, b) && SizesFit(l, b, version) && r < |AllRows(l, b)| && |word| == 2
    requires var items := Items(AllRows(l, b), true); data == word + Table(Sizes(items), EntrySize(version)) + Joined(items)
    ensures PackedRow(l, b, version, data, r)
  {
    hide AllRows, Joined, Table, ValidBitmap, Pack, Be, Pow256;
    var items, k := Items(AllRows(l, b), true), EntrySize(version);
    var table, rows := Table(Sizes(items), k), Joined(items);
    StartIs(l, b, version, r);
    TableLength(Sizes(items), k);
    RowTotal(l, b, true);
    TableEntry(Sizes(items), k, r, r * k);
    EntryIs(table[r * k..r * k + k]);
    RowInside(items, r);
    var start := RowStart(l, b, version, r);
    assert data[start..start + |items[r]|] == rows[|Joined(items[..r])|..|Joined(items[..r])| + |items[r]|];
  }

  lemma RowInside(items: seq<seq<byte>>, j: nat)
    requires j < |items|
    ensures var at := |Joined(items[..j])|;
      at + |items[j]| <= |Joined(items)| && Joined(items)[at..at + |items[j]|] == items[j]
  {
    assert items[..j + 1] == items[..j] + [items[j]];
    JoinedSnoc(items[..j], items[j]);
    JoinedGrows(items, j + 1);
  }

  lemma EntryIs(e: seq<byte>)
    ensures |e| == 2 ==> Be(e) == TwoBytes(e, 0)
    ensures |e| == 4 ==> Be(e) == 0x1_0000 * TwoBytes(e, 0) + TwoBytes(e, 2)
  {
    if |e| == 2 {
      BeTwo(e);
    } else if |e| == 4 {
      BeTwo(e[..2]);
      assert e == e[..2] + [e[2]] + [e[3]];
      BeSnoc(e[..2], e[2]);
      BeSnoc(e[..2] + [e[2]], e[3]);
    }
  }

  lemma BeTwo(e: seq<byte>)
    requires |e| == 2
    ensures Be(e) == TwoBytes(e, 0)
  {
    BeSnoc([], e[0]);
    BeSnoc([e[0]], e[1]);
    assert e == [e[0]] + [e[1]] && [] + [e[0]] == [e[0]];
  }
}
