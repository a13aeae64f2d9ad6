/** The rows of PSD image data: for each channel, the lines of the picture from top to bottom, each a channel's samples
    in big-endian order. */
module PsdRows {
  import opened Numbers
  import opened PackBits
  import opened FileParts

  type Sample = seq<byte>

  /** SwapShort and SwapLong; nothing to do for single bytes. */
  function Swapped(s: Sample): (r: Sample)
    ensures |r| == |s|
  {
    seq(|s|, i requires 0 <= i < |s| => s[|s| - 1 - i])
  }

  lemma SwapTwice(s: Sample)
    ensures Swapped(Swapped(s)) == s
  {
  }

  /** The layout of a bitmap: its scan lines have n pixels of `spp` samples, each of `bytes` bytes. */
  datatype Layout = Layout(height: nat, n: nat, spp: nat, bytes: nat, rgb: bool)

  type Bitmap = seq<seq<Sample>>

  ghost predicate ValidLayout(l: Layout)
  {
    l.height > 0 && l.n > 0 && l.spp > 0 && (l.bytes == 1 || l.bytes == 2 || l.bytes == 4) && (l.rgb ==> l.spp >= 3)
  }

  ghost predicate ValidScan(l: Layout, scan: seq<Sample>)
  {
    |scan| == l.n * l.spp && forall k :: 0 <= k < |scan| ==> |scan[k]| == l.bytes
  }

  ghost predicate ValidBitmap(l: Layout, b: Bitmap)
  {
    ValidLayout(l) && |b| == l.height && forall y :: 0 <= y < l.height ==> ValidScan(l, b[y])
  }

  /** GetChannelOffset: a bitmap of bytes has its colours in the order blue, green, red. */
  function ChannelOffset(l: Layout, c: nat): nat
  {
    if l.rgb && (c == 0 || c == 2) then 2 - c else c
  }

  /** Each channel has an offset of its own in the pixels. */
  lemma OffsetsDiffer(l: Layout, c: nat, d: nat)
    requires ValidLayout(l) && c < l.spp && d < l.spp
    ensures ChannelOffset(l, c) < l.spp && (c != d ==> ChannelOffset(l, c) != ChannelOffset(l, d))
  {
  }

  function Place(l: Layout, off: nat, i: nat): nat
  {
    off + i * l.spp
  }

  /** The i-th sample of a channel lies within the scan line, and no other channel has a sample there. */
  lemma PlaceInside(l: Layout, off: nat, i: nat)
    requires off < l.spp && i < l.n
    ensures Place(l, off, i) < l.n * l.spp && Place(l, off, i) % l.spp == off
    ensures Place(l, off, i + 1) == Place(l, off, i) + l.spp
  {
    MulMono(i + 1, l.n, l.spp);
    MulDistributes(i, 1, l.spp);
    DivUnique(off + i * l.spp, i, l.spp, off);
  }

  /** The first n samples of a channel, as they are in the file. */
  function LineBytes(l: Layout, scan: seq<Sample>, off: nat, n: nat): seq<byte>
    requires |scan| == l.n * l.spp && off < l.spp && n <= l.n
  {
    if n == 0 then []
    else
      PlaceInside(l, off, n - 1);
      LineBytes(l, scan, off, n - 1) + Swapped(scan[Place(l, off, n - 1)])
  }

  lemma {:induction false} LineLength(l: Layout, scan: seq<Sample>, off: nat, n: nat)
    requires ValidScan(l, scan) && off < l.spp && n <= l.n
    ensures |LineBytes(l, scan, off, n)| == n * l.bytes
  {
    if n > 0 {
      PlaceInside(l, off, n - 1);
      LineLength(l, scan, off, n - 1);
      MulDistributes(n - 1, 1, l.bytes);
    }
  }

  /** Where the i-th sample is in the row. */
  lemma {:induction false} SampleInLine(l: Layout, scan: seq<Sample>, off: nat, n: nat, i: nat, at: nat)
    requires ValidScan(l, scan) && off < l.spp && i < n <= l.n && at == i * l.bytes
    ensures at + l.bytes <= |LineBytes(l, scan, off, n)| && Place(l, off, i) < |scan|
    ensures LineBytes(l, scan, off, n)[at..at + l.bytes] == Swapped(scan[Place(l, off, i)])
  {
    PlaceInside(l, off, i);
    PlaceInside(l, off, n - 1);
    LineLength(l, scan, off, n - 1);
    if i < n - 1 {
      SampleInLine(l, scan, off, n - 1, i, at);
    }
  }

  /** Byte j of the i-th sample of a row: the samples of the channel one after the other, the most significant byte first
      of what the bitmap has with the least significant byte first. */
  ghost predicate SampleByte(l: Layout, scan: seq<Sample>, off: nat, line: seq<byte>, i: nat, j: nat)
  {
    && i * l.bytes + j < |line| && off + i * l.spp < |scan| && j < l.bytes == |scan[off + i * l.spp]|
    && line[i * l.bytes + j] == scan[off + i * l.spp][l.bytes - 1 - j]
  }

  lemma ByteInLine(l: Layout, scan: seq<Sample>, off: nat, i: nat, j: nat)
    requires ValidScan(l, scan) && off < l.spp && i < l.n && j < l.bytes
    ensures SampleByte(l, scan, off, LineBytes(l, scan, off, l.n), i, j)
  {
    var line, at := LineBytes(l, scan, off, l.n), i * l.bytes;
    SampleInLine(l, scan, off, l.n, i, at);
    assert line[at..at + l.bytes][j] == line[at + j];
  }

  // ---- Rows ----

  /** Row h of channel c: the picture is upside down in the bitmap. */
  function Row(l: Layout, b: Bitmap, c: nat, h: nat): seq<byte>
    requires ValidBitmap(l, b) && c < l.spp && h < l.height
  {
    OffsetsDiffer(l, c, c);
    LineBytes(l, b[l.height - 1 - h], ChannelOffset(l, c), l.n)
  }

  /** The rows of the first c channels and of the first h lines of the next one. */
  function Rows(l: Layout, b: Bitmap, c: nat, h: nat): seq<seq<byte>>
    requires ValidBitmap(l, b) && c <= l.spp && h <= l.height && (c == l.spp ==> h == 0)
    decreases c, h
  {
    if h > 0 then Rows(l, b, c, h - 1) + [Row(l, b, c, h - 1)]
    else if c > 0 then Rows(l, b, c - 1, l.height)
    else []
  }

  lemma {:induction false} RowCount(l: Layout, b: Bitmap, c: nat, h: nat)
    requires ValidBitmap(l, b) && c <= l.spp && h <= l.height && (c == l.spp ==> h == 0)
    ensures |Rows(l, b, c, h)| == c * l.height + h
    decreases c, h
  {
    if h > 0 {
      RowCount(l, b, c, h - 1);
    } else if c > 0 {
      RowCount(l, b, c - 1, l.height);
      MulDistributes(c - 1, 1, l.height);
    }
  }

  /** All rows of the picture. */
  function AllRows(l: Layout, b: Bitmap): seq<seq<byte>>
    requires ValidBitmap(l, b)
  {
    Rows(l, b, l.spp, 0)
  }

  lemma {:induction false} RowsGrow(l: Layout, b: Bitmap, c: nat, h: nat)
    requires ValidBitmap(l, b) && c <= l.spp && h <= l.height && (c == l.spp ==> h == 0)
    ensures Rows(l, b, c, h) <= AllRows(l, b)
    decreases l.spp - c, l.height - h
  {
    hide Row;
    if c < l.spp {
      if h < l.height {
        RowsGrow(l, b, c, h + 1);
      } else {
        RowsGrow(l, b, c + 1, 0);
      }
    }
  }

  /** Where row h of channel c stands among the rows. */
  lemma RowAt(l: Layout, b: Bitmap, c: nat, h: nat)
    requires ValidBitmap(l, b) && c < l.spp && h < l.height
    ensures var j := |Rows(l, b, c, h)|;
      j < |AllRows(l, b)| && AllRows(l, b)[..j] == Rows(l, b, c, h) && AllRows(l, b)[j] == Row(l, b, c, h)
  {
    hide Row, AllRows;
    RowsGrow(l, b, c, h + 1);
    assert Rows(l, b, c, h + 1) == Rows(l, b, c, h) + [Row(l, b, c, h)];
  }

  /** What is in the file for the rows. */
  function Items(rows: seq<seq<byte>>, rle: bool): (r: seq<seq<byte>>)
    ensures |r| == |rows|
  {
    if rle then Packed(rows) else rows
  }

  function Item(row: seq<byte>, rle: bool): seq<byte>
  {
    if rle then Pack(row) else row
  }

  lemma ItemsSnoc(rows: seq<seq<byte>>, row: seq<byte>, rle: bool)
    ensures Items(rows + [row], rle) == Items(rows, rle) + [Item(row, rle)]
    ensures Joined(Items(rows + [row], rle)) == Joined(Items(rows, rle)) + Item(row, rle)
  {
    hide Pack;
    assert Items(rows + [row], rle) == Items(rows, rle) + [Item(row, rle)];
    JoinedSnoc(Items(rows, rle), Item(row, rle));
  }

  /** The lengths of the rows as they are in the file. */
  function Sizes(items: seq<seq<byte>>): (r: seq<nat>)
    ensures |r| == |items|
  {
    seq(|items|, i requires 0 <= i < |items| => |items[i]|)
  }

  lemma NextChannel(l: Layout, b: Bitmap, c: nat)
    requires ValidBitmap(l, b) && c < l.spp
    ensures Rows(l, b, c + 1, 0) == Rows(l, b, c, l.height)
  {
  }

  /** The next row, as it is in the file, and what is in front of it. */
  lemma NextRow(l: Layout, b: Bitmap, c: nat, h: nat, rle: bool)
    requires ValidBitmap(l, b) && c < l.spp && h < l.height
    ensures var items, done, item := Items(AllRows(l, b), rle), Items(Rows(l, b, c, h), rle), Item(Row(l, b, c, h), rle);
      && |done| < |items| && items[..|done|] == done && items[|done|] == item
      && Items(Rows(l, b, c, h + 1), rle) == done + [item]
      && |Joined(done)| + |item| <= |Joined(items)|
  {
    hide Joined, Pack, Row, ValidBitmap, AllRows;
    RowAt(l, b, c, h);
    ItemsSnoc(Rows(l, b, c, h), Row(l, b, c, h), rle);
    var items, j := Items(AllRows(l, b), rle), |Rows(l, b, c, h)|;
    assert items[..j] == Items(Rows(l, b, c, h), rle);
    assert items[..j + 1] == items[..j] + [items[j]];
    JoinedSnoc(items[..j], items[j]);
    JoinedGrows(items, j + 1);
  }

  /** What has been written: the rows so far, and their sizes. */
  ghost predicate Wrote(contents: seq<byte>, before: seq<byte>, items: seq<seq<byte>>, sizes: seq<nat>)
  {
    contents == before + Joined(items) && sizes == Sizes(items)
  }

  lemma WroteMore(contents: seq<byte>, before: seq<byte>, items: seq<seq<byte>>, sizes: seq<nat>, row: seq<byte>)
    requires Wrote(contents, before, items, sizes)
    ensures Wrote(contents + row, before, items + [row], sizes + [|row|])
  {
    JoinedSnoc(items, row);
  }

  lemma WroteNone(l: Layout, b: Bitmap, before: seq<byte>, rle: bool)
    requires ValidBitmap(l, b)
    ensures Wrote(before, before, Items(Rows(l, b, 0, 0), rle), [])
  {
  }

  lemma WroteLength(contents: seq<byte>, before: seq<byte>, items: seq<seq<byte>>, sizes: seq<nat>)
    requires Wrote(contents, before, items, sizes)
    ensures contents == before + Joined(items) && |contents| == |before| + |Joined(items)| && sizes == Sizes(items)
  {
  }

  lemma RowIs(l: Layout, b: Bitmap, c: nat, h: nat, off: nat)
    requires ValidBitmap(l, b) && c < l.spp && h < l.height && off == ChannelOffset(l, c)
    ensures |b| == l.height && off < l.spp && ValidScan(l, b[l.height - 1 - h])
    ensures Row(l, b, c, h) == LineBytes(l, b[l.height - 1 - h], off, l.n)
  {
  }

  lemma {:induction false} JoinedGrows(items: seq<seq<byte>>, j: nat)
    requires j <= |items|
    ensures Joined(items[..j]) <= Joined(items)
  {
    if j < |items| {
      var rest := items[..|items| - 1];
      JoinedGrows(rest, j);
      assert rest[..j] == items[..j];
    } else {
      assert items[..j] == items;
    }
  }

  lemma ItemHere(file: seq<byte>, start: nat, items: seq<seq<byte>>, j: nat)
    requires Here(file, start, Joined(items)) && j < |items|
    ensures Here(file, start + |Joined(items[..j])|, items[j])
    ensures Joined(items[..j + 1]) == Joined(items[..j]) + items[j] && |Joined(items[..j + 1])| <= |Joined(items)|
  {
    assert items[..j + 1] == items[..j] + [items[j]];
    JoinedSnoc(items[..j], items[j]);
    JoinedGrows(items, j + 1);
    hide Here, Joined;
    NextHere(file, start, Joined(items[..j]), items[j], Joined(items));
  }

  function Joined(rows: seq<seq<byte>>): seq<byte>
  {
    if rows == [] then [] else Joined(rows[..|rows| - 1]) + rows[|rows| - 1]
  }

  lemma JoinedSnoc(rows: seq<seq<byte>>, row: seq<byte>)
    ensures Joined(rows + [row]) == Joined(rows) + row
  {
    assert (rows + [row])[..|rows|] == rows;
  }

  function Packed(rows: seq<seq<byte>>): (r: seq<seq<byte>>)
    ensures |r| == |rows|
  {
    seq(|rows|, i requires 0 <= i < |rows| => Pack(rows[i]))
  }

  // ---- The size table ----

  /** A number in k bytes, most significant first. */
  function BeBytes(v: nat, k: nat): (r: seq<byte>)
    ensures |r| == k
  {
    if k == 0 then [] else BeBytes(v / 256, k - 1) + [v % 256]
  }

  lemma {:induction false} BeRoundTrip(v: nat, k: nat)
    requires v < Pow256(k)
    ensures Be(BeBytes(v, k)) == v
  {
    if k > 0 {
      BeRoundTrip(v / 256, k - 1);
      BeSnoc(BeBytes(v / 256, k - 1), v % 256);
    }
  }

  function Pow256(k: nat): (r: nat)
    ensures r > 0
  {
    if k == 0 then 1 else 256 * Pow256(k - 1)
  }

  /** The table of the row lengths, k bytes each. */
  function Table(sizes: seq<nat>, k: nat): seq<byte>
  {
    if sizes == [] then [] else Table(sizes[..|sizes| - 1], k) + BeBytes(sizes[|sizes| - 1] % Pow256(k), k)
  }

  lemma {:induction false} TableLength(sizes: seq<nat>, k: nat)
    ensures |Table(sizes, k)| == |sizes| * k
  {
    if sizes != [] {
      TableLength(sizes[..|sizes| - 1], k);
      MulDistributes(|sizes| - 1, 1, k);
    }
  }

  /** The table gives back every row length that fits its entries. */
  lemma {:induction false} TableEntry(sizes: seq<nat>, k: nat, i: nat, at: nat)
    requires i < |sizes| && sizes[i] < Pow256(k) && at == i * k
    ensures at + k <= |Table(sizes, k)| && Be(Table(sizes, k)[at..at + k]) == sizes[i]
  {
    var before, last := sizes[..|sizes| - 1], sizes[|sizes| - 1];
    TableLength(before, k);
    if i < |sizes| - 1 {
      TableEntry(before, k, i, at);
      LeftSlice(Table(before, k), BeBytes(last % Pow256(k), k), at, at + k);
    } else {
      DivUnique(last, 0, Pow256(k), last);
      BeRoundTrip(last, k);
      RightSlice(Table(before, k), BeBytes(last, k));
    }
  }

  lemma LeftSlice(a: seq<byte>, b: seq<byte>, i: nat, j: nat)
    requires i <= j <= |a|
    ensures (a + b)[i..j] == a[i..j]
  {
  }

  lemma RightSlice(a: seq<byte>, b: seq<byte>)
    ensures (a + b)[|a|..|a| + |b|] == b
  {
  }

  /** In version 1 files, with widths up to 30000, every packed row of one-byte samples has a length of 16 bits. */
  lemma PackedFits(row: seq<byte>, version: nat)
    requires version == 1 ==> |row| <= 30000
    requires version == 2 ==> |row| + Extra(|row|) < 0x1_0000_0000
    ensures version == 1 ==> |Pack(row)| < Pow256(2)
    ensures version == 2 ==> |Pack(row)| < Pow256(4)
  {
    PackedLength(row);
    assert Pow256(1) == 256 && Pow256(2) == 0x1_0000 && Pow256(3) == 0x100_0000 && Pow256(4) == 0x1_0000_0000;
  }

  // ---- Image data ----

  const COMPRESSION_NONE := 0
  const COMPRESSION_RLE := 1

  /** The bytes of an entry of the size table. */
  function EntrySize(version: nat): nat
  {
    if version == 1 then 2 else 4
  }

  function TableOf(items: seq<seq<byte>>, rle: bool, version: nat): seq<byte>
  {
    if rle then Table(Sizes(items), EntrySize(version)) else []
  }

  /** Image data: the compression, the size table of run-length coded rows, and the rows. */
  function ImageData(l: Layout, b: Bitmap, rle: bool, version: nat): seq<byte>
    requires ValidBitmap(l, b)
  {
    var items := Items(AllRows(l, b), rle);
    BeBytes(if rle then COMPRESSION_RLE else COMPRESSION_NONE, 2) + TableOf(items, rle, version) + Joined(items)
  }
}
