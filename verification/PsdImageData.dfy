/** Writing and reading PSD image data: the pixel loops of PSDParser.cpp, raw and run-length coded. */
module PsdImageData {
  import opened Numbers
  import opened PackBits
  import opened PsdRows
  import opened FileParts
  import MemoryStream

  // ---- One line ----

  /** The i-th sample of a row in the file. */
  function Cut(line: seq<byte>, i: nat, bytes: nat): seq<byte>
  {
    if i * bytes + bytes <= |line| then line[i * bytes..i * bytes + bytes] else []
  }

  method WriteImageLine(l: Layout, scan: array<Sample>, off: nat) returns (line: seq<byte>)
    requires ValidScan(l, scan[..]) && off < l.spp
    ensures line == LineBytes(l, scan[..], off, l.n) && |line| == l.n * l.bytes
    ensures forall i, j :: 0 <= i < l.n && 0 <= j < l.bytes ==> SampleByte(l, scan[..], off, line, i, j)
  {
    LineLength(l, scan[..], off, l.n);
    line := [];
    var s := off;
    for i := 0 to l.n
      invariant s == Place(l, off, i) && line == LineBytes(l, scan[..], off, i)
    {
      PlaceInside(l, off, i);
      line := line + Swapped(scan[s]);
      s := s + l.spp;
    }
    forall i, j | 0 <= i < l.n && 0 <= j < l.bytes ensures SampleByte(l, scan[..], off, line, i, j) {
      ByteInLine(l, scan[..], off, i, j);
    }
  }

  method ReadImageLine(l: Layout, scan: array<Sample>, off: nat, line: seq<byte>)
    requires scan.Length == l.n * l.spp && off < l.spp && |line| == l.n * l.bytes
    modifies scan
    ensures LineRead(l, scan[..], off, line, l.n) && OthersKept(l, scan[..], old(scan[..]), off)
  {
    hide LineRead, OthersKept;
    var d, s := off, 0;
    LineReadNone(l, scan[..], off, line);
    for i := 0 to l.n
      invariant d == Place(l, off, i) && s == i * l.bytes
      invariant LineRead(l, scan[..], off, line, i) && OthersKept(l, scan[..], old(scan[..]), off)
    {
      PlaceInside(l, off, i);
      MulMono(i + 1, l.n, l.bytes);
      MulDistributes(i, 1, l.bytes);
      ghost var before := scan[..];
      scan[d] := Swapped(line[s..s + l.bytes]);
      assert scan[..] == before[d := Swapped(line[s..s + l.bytes])];
      LineReadMore(l, before, old(scan[..]), off, line, i, d);
      d := d + l.spp;
      s := s + l.bytes;
    }
  }

  /** The first n samples of a channel are those of the row. */
  ghost predicate LineRead(l: Layout, scan: seq<Sample>, off: nat, line: seq<byte>, n: nat)
  {
    |scan| == l.n * l.spp && off < l.spp && n <= l.n
    && forall i :: 0 <= i < n ==> SampleRead(l, scan, off, line, i)
  }

  ghost predicate SampleRead(l: Layout, scan: seq<Sample>, off: nat, line: seq<byte>, i: nat)
  {
    Place(l, off, i) < |scan| && scan[Place(l, off, i)] == Swapped(Cut(line, i, l.bytes))
  }

  /** Samples of other channels are the same. */
  ghost predicate OthersKept(l: Layout, scan: seq<Sample>, before: seq<Sample>, off: nat)
    requires l.spp > 0
  {
    |scan| == |before| && forall k :: 0 <= k < |scan| && k % l.spp != off ==> scan[k] == before[k]
  }

  lemma LineReadNone(l: Layout, scan: seq<Sample>, off: nat, line: seq<byte>)
    requires |scan| == l.n * l.spp && off < l.spp
    ensures LineRead(l, scan, off, line, 0) && OthersKept(l, scan, scan, off)
  {
  }

  lemma LineReadMore(l: Layout, scan: seq<Sample>, before: seq<Sample>, off: nat, line: seq<byte>, i: nat, d: nat)
    requires LineRead(l, scan, off, line, i) && OthersKept(l, scan, before, off) && i < l.n && d == Place(l, off, i) < |scan|
    requires i * l.bytes + l.bytes <= |line|
    ensures LineRead(l, scan[d := Swapped(Cut(line, i, l.bytes))], off, line, i + 1)
    ensures OthersKept(l, scan[d := Swapped(Cut(line, i, l.bytes))], before, off)
  {
    var after := scan[d := Swapped(Cut(line, i, l.bytes))];
    PlaceInside(l, off, i);
    forall j | 0 <= j < i + 1 ensures SampleRead(l, after, off, line, j) {
      if j < i {
        assert SampleRead(l, scan, off, line, j);
        MulMono(j + 1, i, l.spp);
        MulDistributes(j, 1, l.spp);
      }
    }
  }

  /** A row that was written gives back the samples of its channel. */
  lemma SamplesBack(l: Layout, scan: seq<Sample>, src: seq<Sample>, off: nat, i: nat)
    requires ValidScan(l, src) && off < l.spp && i < l.n && LineRead(l, scan, off, LineBytes(l, src, off, l.n), l.n)
    ensures Place(l, off, i) < |scan| == |src| && scan[Place(l, off, i)] == src[Place(l, off, i)]
  {
    var line := LineBytes(l, src, off, l.n);
    assert SampleRead(l, scan, off, line, i);
    SampleInLine(l, src, off, l.n, i, i * l.bytes);
    SwapTwice(src[Place(l, off, i)]);
  }

  // ---- The bitmap ----

  type Dib = seq<array<Sample>>

  ghost function BitmapOf(dib: Dib): (b: Bitmap)
    reads dib
    ensures |b| == |dib| && forall y :: 0 <= y < |dib| ==> b[y] == dib[y][..]
  {
    seq(|dib|, y requires 0 <= y < |dib| reads dib => dib[y][..])
  }

  ghost predicate ValidDib(l: Layout, dib: Dib)
  {
    && ValidLayout(l) && |dib| == l.height
    && (forall y :: 0 <= y < |dib| ==> dib[y].Length == l.n * l.spp)
    && forall y, z :: 0 <= y < z < |dib| ==> dib[y] != dib[z]
  }

  // ---- Writing rows ----

  /** The loops over channels and lines, raw or packed: ok if and only if the stream has room. */
  method WriteRows(stream: MemoryStream.MemoryStream, l: Layout, dib: Dib, rle: bool) returns (ok: bool, sizes: seq<nat>)
    requires stream.Valid() && stream.currentPosition == stream.fileLength
    requires ValidDib(l, dib) && ValidBitmap(l, BitmapOf(dib)) && (rle ==> l.bytes == 1)
    modifies stream, stream.data
    ensures stream.Valid() && (stream.data == old(stream.data) || fresh(stream.data)) && BitmapOf(dib) == old(BitmapOf(dib))
    ensures var items := Items(AllRows(l, BitmapOf(dib)), rle);
      && (ok <==> |old(stream.Contents())| + |Joined(items)| < MemoryStream.MAX_LENGTH)
      && (ok ==> stream.Contents() == old(stream.Contents()) + Joined(items) && sizes == Sizes(items))
      && (ok ==> stream.currentPosition == stream.fileLength)
  {
    hide ValidBitmap, Rows, Row, Items, Item, Joined, Sizes, MemoryStream.MemoryStream.Valid, Wrote;
    ghost var b, before := BitmapOf(dib), stream.Contents();
    ghost var items := Items(AllRows(l, b), rle);
    var rleLine := new byte[l.n * l.bytes + Extra(l.n * l.bytes)];
    WroteNone(l, b, before, rle);
    sizes := [];
    for c := 0 to l.spp
      invariant stream.Valid() && (stream.data == old(stream.data) || fresh(stream.data)) && stream.data != rleLine
      invariant BitmapOf(dib) == b
      invariant Wrote(stream.Contents(), before, Items(Rows(l, b, c, 0), rle), sizes)
      invariant stream.currentPosition == stream.fileLength && (c > 0 ==> stream.fileLength < MemoryStream.MAX_LENGTH)
    {
      ok, sizes := WriteChannel(stream, l, dib, rle, c, rleLine, b, before, sizes);
      if !ok {
        return;
      }
      NextChannel(l, b, c);
    }
    WroteLength(stream.Contents(), before, items, sizes);
    return true, sizes;
  }

  method WriteChannel(stream: MemoryStream.MemoryStream, l: Layout, dib: Dib, rle: bool, c: nat, rleLine: array<byte>,
      ghost b: Bitmap, ghost before: seq<byte>, sizes: seq<nat>) returns (ok: bool, sizes': seq<nat>)
    requires stream.Valid() && stream.currentPosition == stream.fileLength && stream.data != rleLine
    requires ValidDib(l, dib) && BitmapOf(dib) == b && ValidBitmap(l, b) && (rle ==> l.bytes == 1) && c < l.spp
    requires rleLine.Length == l.n * l.bytes + Extra(l.n * l.bytes)
    requires Wrote(stream.Contents(), before, Items(Rows(l, b, c, 0), rle), sizes)
    modifies stream, stream.data, rleLine
    ensures stream.Valid() && (stream.data == old(stream.data) || fresh(stream.data)) && BitmapOf(dib) == b
    ensures ok ==> Wrote(stream.Contents(), before, Items(Rows(l, b, c, l.height), rle), sizes')
    ensures ok ==> stream.currentPosition == stream.fileLength < MemoryStream.MAX_LENGTH
    ensures !ok ==> |before| + |Joined(Items(AllRows(l, b), rle))| >= MemoryStream.MAX_LENGTH
  {
    hide ValidBitmap, Rows, Row, Items, Item, Joined, Sizes, MemoryStream.MemoryStream.Valid, Wrote, LineBytes;
    OffsetsDiffer(l, c, c);
    var channelOffset := ChannelOffset(l, c);
    sizes' := sizes;
    for h := 0 to l.height
      invariant stream.Valid() && (stream.data == old(stream.data) || fresh(stream.data)) && stream.data != rleLine
      invariant BitmapOf(dib) == b
      invariant Wrote(stream.Contents(), before, Items(Rows(l, b, c, h), rle), sizes')
      invariant stream.currentPosition == stream.fileLength && (h > 0 ==> stream.fileLength < MemoryStream.MAX_LENGTH)
    {
      RowIs(l, b, c, h, channelOffset);
      NextRow(l, b, c, h, rle);
      var row := WriteRow(l, dib[l.height - 1 - h], channelOffset, rle, rleLine);
      WroteMore(stream.Contents(), before, Items(Rows(l, b, c, h), rle), sizes', row);
      WroteLength(stream.Contents(), before, Items(Rows(l, b, c, h), rle), sizes');
      ghost var contents := stream.Contents();
      var count := stream.Write(row, |row|, 1);
      if count != 1 {
        return false, sizes';
      }
      assert stream.Contents() == contents + row;
      sizes' := sizes' + [|row|];
    }
    return true, sizes';
  }

  /** A row as it goes to the file. */
  method WriteRow(l: Layout, scan: array<Sample>, off: nat, rle: bool, rleLine: array<byte>) returns (row: seq<byte>)
    requires ValidScan(l, scan[..]) && off < l.spp && rleLine.Length == l.n * l.bytes + Extra(l.n * l.bytes)
    modifies rleLine
    ensures row == Item(LineBytes(l, scan[..], off, l.n), rle)
  {
    hide LineBytes, Pack, ValidScan;
    row := WriteImageLine(l, scan, off);
    if rle {
      var n := PackRle(rleLine, row);
      row := rleLine[..n];
    }
  }

  /** The table of the row sizes: what does not fit an entry is cut off. */
  method MakeTable(sizes: seq<nat>, k: nat) returns (table: seq<byte>)
    ensures table == Table(sizes, k)
  {
    table := [];
    for index := 0 to |sizes|
      invariant table == Table(sizes[..index], k)
    {
      assert sizes[..index + 1][..index] == sizes[..index];
      table := table + BeBytes(sizes[index] % Pow256(k), k);
    }
    assert sizes[..|sizes|] == sizes;
  }

  /** Bytes written at the end of the file; ok if and only if there is room. */
  method Append(stream: MemoryStream.MemoryStream, bytes: seq<byte>) returns (ok: bool)
    requires stream.Valid() && stream.currentPosition == stream.fileLength
    modifies stream, stream.data
    ensures stream.Valid() && (stream.data == old(stream.data) || fresh(stream.data))
    ensures ok <==> |old(stream.Contents())| + |bytes| < MemoryStream.MAX_LENGTH
    ensures ok ==> stream.Contents() == old(stream.Contents()) + bytes && stream.currentPosition == stream.fileLength
  {
    var count := stream.Write(bytes, |bytes|, 1);
    ok := count == 1;
  }

  /** WriteImageData: ok if and only if the stream has room. */
  method WriteImageData(stream: MemoryStream.MemoryStream, l: Layout, dib: Dib, rle: bool, version: nat) returns (ok: bool)
    requires stream.Valid() && stream.currentPosition == stream.fileLength
    requires ValidDib(l, dib) && ValidBitmap(l, BitmapOf(dib)) && (rle ==> l.bytes == 1)
    modifies stream, stream.data
    ensures stream.Valid() && (stream.data == old(stream.data) || fresh(stream.data)) && BitmapOf(dib) == old(BitmapOf(dib))
    ensures var data := ImageData(l, BitmapOf(dib), rle, version);
      && (ok <==> |old(stream.Contents())| + |data| < MemoryStream.MAX_LENGTH)
      && (ok ==> stream.Contents() == old(stream.Contents()) + data && stream.currentPosition == stream.fileLength)
  {
    hide ValidBitmap, AllRows, Items, Joined, Sizes, Table, MemoryStream.MemoryStream.Valid;
    ghost var b, before := BitmapOf(dib), stream.Contents();
    var compression := BeBytes(if rle then COMPRESSION_RLE else COMPRESSION_NONE, 2);
    ok := Append(stream, compression);
    if !ok {
      return;
    }
    if rle {
      ok := WriteRleRows(stream, l, dib, EntrySize(version));
    } else {
      var sizes;
      ok, sizes := WriteRows(stream, l, dib, false);
    }
  }

  /** The run-length coded rows, with their table, which is written before and again after them. */
  method WriteRleRows(stream: MemoryStream.MemoryStream, l: Layout, dib: Dib, k: nat) returns (ok: bool)
    requires stream.Valid() && stream.currentPosition == stream.fileLength
    requires ValidDib(l, dib) && ValidBitmap(l, BitmapOf(dib)) && l.bytes == 1
    modifies stream, stream.data
    ensures stream.Valid() && (stream.data == old(stream.data) || fresh(stream.data)) && BitmapOf(dib) == old(BitmapOf(dib))
    ensures var items := Items(AllRows(l, BitmapOf(dib)), true);
      var data := Table(Sizes(items), k) + Joined(items);
      && (ok <==> |old(stream.Contents())| + |data| < MemoryStream.MAX_LENGTH)
      && (ok ==> stream.Contents() == old(stream.Contents()) + data && stream.currentPosition == stream.fileLength)
  {
    hide ValidBitmap, AllRows, Items, Joined, Sizes, Table, MemoryStream.MemoryStream.Valid;
    ghost var b, before := BitmapOf(dib), stream.Contents();
    ghost var items := Items(AllRows(l, b), true);
    RowCount(l, b, l.spp, 0);
    assert |items| == l.spp * l.height by { AllRowsAre(l, b); }
    TableLength(Sizes(items), k);
    var offsetsPos := stream.Tell();
    var empty := Fill(0, l.spp * l.height * k);
    ok := Append(stream, empty);
    if !ok {
      return;
    }
    var sizes;
    ok, sizes := WriteRows(stream, l, dib, true);
    if !ok {
      return;
    }
    assert stream.Contents() == before + empty + Joined(items) && stream.fileLength == |stream.Contents()|;
    var table := MakeTable(sizes, k);
    PutBack(stream, offsetsPos, table, before, empty, Joined(items));
  }

  /** Puts the table in the place that was left for it. */
  method PutBack(stream: MemoryStream.MemoryStream, offsetsPos: nat, table: seq<byte>, ghost before: seq<byte>,
      ghost empty: seq<byte>, ghost rows: seq<byte>)
    requires stream.Valid() && stream.fileLength < MemoryStream.MAX_LENGTH && offsetsPos == |before| && |table| == |empty|
    requires stream.Contents() == before + empty + rows
    modifies stream, stream.data
    ensures stream.Valid() && (stream.data == old(stream.data) || fresh(stream.data))
    ensures stream.Contents() == before + table + rows && stream.currentPosition == stream.fileLength
  {
    TableBack(before, empty, rows, table);
    assert |stream.Contents()| == |before| + |empty| + |rows|;
    var _ := stream.Seek(offsetsPos, MemoryStream.SeekSet);
    var _ := stream.Write(table, |table|, 1);
    var _ := stream.Seek(0, MemoryStream.SeekEnd);
  }

  lemma AllRowsAre(l: Layout, b: Bitmap)
    requires ValidBitmap(l, b)
    ensures AllRows(l, b) == Rows(l, b, l.spp, 0)
  {
  }

  lemma TableBack(before: seq<byte>, empty: seq<byte>, rows: seq<byte>, table: seq<byte>)
    requires |table| == |empty|
    ensures MemoryStream.Overwritten(before + empty + rows, |before|, table) == before + table + rows
  {
  }

  // ---- Reading ----

  /** The first h rows of channel c, and all of the channels before it, are back. */
  ghost predicate Restored(l: Layout, d: Bitmap, b: Bitmap, c: nat, h: nat)
  {
    && ValidBitmap(l, b) && c <= l.spp && h <= l.height && |d| == |b|
    && (forall y :: 0 <= y < |d| ==> |d[y]| == |b[y]|)
    && (forall a, y :: 0 <= a < c && 0 <= y < |d| ==> LineBack(l, d, b, a, y))
    && forall y :: l.height - h <= y < |d| && c < l.spp ==> LineBack(l, d, b, c, y)
  }

  ghost predicate LineBack(l: Layout, d: Bitmap, b: Bitmap, c: nat, y: nat)
  {
    y < |d| && y < |b| && forall i :: 0 <= i < l.n ==> SampleBack(d[y], b[y], Place(l, ChannelOffset(l, c), i))
  }

  ghost predicate SampleBack(scan: seq<Sample>, src: seq<Sample>, k: nat)
  {
    k < |scan| && k < |src| && scan[k] == src[k]
  }

  /** One more row. */
  lemma RestoredMore(l: Layout, d: Bitmap, b: Bitmap, c: nat, h: nat, scan: seq<Sample>)
    requires Restored(l, d, b, c, h) && c < l.spp && h < l.height && |d| == l.height
    requires var y, off := l.height - 1 - h, ChannelOffset(l, c);
      LineRead(l, scan, off, LineBytes(l, b[y], off, l.n), l.n) && OthersKept(l, scan, d[y], off)
    ensures Restored(l, d[l.height - 1 - h := scan], b, c, h + 1)
  {
    var y0, off := l.height - 1 - h, ChannelOffset(l, c);
    var e := d[y0 := scan];
    OffsetsDiffer(l, c, c);
    assert ValidScan(l, b[y0]);
    forall a, y | 0 <= a <= c && 0 <= y < |e| && (a == c ==> l.height - (h + 1) <= y) ensures LineBack(l, e, b, a, y) {
      if y == y0 {
        forall i | 0 <= i < l.n ensures SampleBack(scan, b[y0], Place(l, ChannelOffset(l, a), i)) {
          if a == c {
            SamplesBack(l, scan, b[y0], off, i);
          } else {
            assert LineBack(l, d, b, a, y0);
            assert SampleBack(d[y0], b[y0], Place(l, ChannelOffset(l, a), i));
            OffsetsDiffer(l, a, c);
            PlaceInside(l, ChannelOffset(l, a), i);
          }
        }
      } else {
        assert LineBack(l, d, b, a, y);
      }
    }
  }

  /** When all channels are back, the bitmap is. */
  lemma AllBack(l: Layout, d: Bitmap, b: Bitmap)
    requires Restored(l, d, b, l.spp, 0)
    ensures d == b
  {
    forall y, k | 0 <= y < |d| && 0 <= k < |d[y]| ensures d[y][k] == b[y][k] {
      assert ValidScan(l, b[y]);
      var off, i := k % l.spp, k / l.spp;
      var c := ChannelOffset(l, off);
      OffsetsDiffer(l, off, off);
      assert ChannelOffset(l, c) == off;
      assert k == off + i * l.spp;
      LessThanLine(i, l.n, l.spp, off);
      assert LineBack(l, d, b, c, y);
      assert SampleBack(d[y], b[y], Place(l, off, i));
    }
    forall y | 0 <= y < |d| ensures d[y] == b[y] {
    }
  }

  lemma LessThanLine(i: nat, n: nat, spp: nat, off: nat)
    requires off + i * spp < n * spp
    ensures i < n
  {
    if n <= i {
      MulMono(n, i, spp);
      assert false;
    }
  }

  /** A row from the file, unpacked. */
  method ReadRow(stream: MemoryStream.MemoryStream, size: nat, rle: bool, lineStart: array<byte>, ghost row: seq<byte>)
      returns (line: seq<byte>)
    requires stream.Valid() && stream.data != lineStart && lineStart.Length == |row| && size == |Item(row, rle)|
    requires Here(stream.Contents(), stream.currentPosition, Item(row, rle))
    modifies stream`currentPosition, lineStart
    ensures stream.Valid() && stream.Contents() == old(stream.Contents())
    ensures stream.currentPosition == old(stream.currentPosition) + size && line == row
  {
    hide Pack;
    var x, bytes := stream.Read(size, 1);
    assert bytes == Item(row, rle);
    line := bytes;
    if rle {
      UnpackPack(row);
      UnpackRle(lineStart, bytes);
      line := lineStart[..];
    }
  }

  /** A row from the file to its line of the bitmap. */
  method ReadLine(stream: MemoryStream.MemoryStream, l: Layout, dib: Dib, c: nat, h: nat, size: nat, rle: bool,
      lineStart: array<byte>, ghost b: Bitmap)
    requires stream.Valid() && stream.data != lineStart && lineStart.Length == l.n * l.bytes
    requires ValidDib(l, dib) && ValidBitmap(l, b) && c < l.spp && h < l.height && Restored(l, BitmapOf(dib), b, c, h)
    requires size == |Item(Row(l, b, c, h), rle)|
    requires Here(stream.Contents(), stream.currentPosition, Item(Row(l, b, c, h), rle))
    modifies stream`currentPosition, lineStart, dib
    ensures stream.Valid() && stream.Contents() == old(stream.Contents())
    ensures stream.currentPosition == old(stream.currentPosition) + size && Restored(l, BitmapOf(dib), b, c, h + 1)
  {
    hide Item, Row, Restored, LineRead, OthersKept, LineBytes, Here, ValidBitmap;
    var channelOffset := ChannelOffset(l, c);
    RowIs(l, b, c, h, channelOffset);
    LineLength(l, b[l.height - 1 - h], channelOffset, l.n);
    var line := ReadRow(stream, size, rle, lineStart, Row(l, b, c, h));
    ghost var d := BitmapOf(dib);
    var y := l.height - 1 - h;
    ReadImageLine(l, dib[y], channelOffset, line);
    RestoredMore(l, d, b, c, h, dib[y][..]);
    assert BitmapOf(dib) == d[y := dib[y][..]];
  }

  /** The loops over channels and lines. */
  method ReadRows(stream: MemoryStream.MemoryStream, l: Layout, dib: Dib, rle: bool, sizes: seq<nat>, ghost b: Bitmap)
    requires stream.Valid() && ValidDib(l, dib) && ValidBitmap(l, b)
    requires Here(stream.Contents(), stream.currentPosition, Joined(Items(AllRows(l, b), rle)))
    requires rle ==> sizes == Sizes(Items(AllRows(l, b), rle))
    modifies stream`currentPosition, dib
    ensures stream.Valid() && stream.Contents() == old(stream.Contents()) && BitmapOf(dib) == b
    ensures stream.currentPosition == old(stream.currentPosition) + |Joined(Items(AllRows(l, b), rle))|
  {
    hide MemoryStream.MemoryStream.Valid, Item, Items, Row, Rows, AllRows, Joined, Restored, Here, ValidBitmap, Sizes;
    ghost var start, file := stream.currentPosition, stream.Contents();
    ghost var items := Items(AllRows(l, b), rle);
    var lineStart := new byte[l.n * l.bytes];
    RestoredNone(l, BitmapOf(dib), b, rle);
    for c := 0 to l.spp
      invariant stream.Valid() && stream.Contents() == file && Restored(l, BitmapOf(dib), b, c, 0)
      invariant stream.currentPosition == start + |Joined(Items(Rows(l, b, c, 0), rle))|
    {
      for h := 0 to l.height
        invariant stream.Valid() && stream.Contents() == file && Restored(l, BitmapOf(dib), b, c, h)
        invariant stream.currentPosition == start + |Joined(Items(Rows(l, b, c, h), rle))|
      {
        RowThere(file, start, l, b, c, h, rle);
        var index := c * l.height + h;
        var size := if rle then sizes[index] else l.n * l.bytes;
        ReadLine(stream, l, dib, c, h, size, rle, lineStart, b);
      }
      NextChannel(l, b, c);
      ChannelBack(l, BitmapOf(dib), b, c);
    }
    AllBack(l, BitmapOf(dib), b);
    AllRowsAre(l, b);
  }

  lemma RestoredNone(l: Layout, d: Bitmap, b: Bitmap, rle: bool)
    requires ValidBitmap(l, b) && |d| == l.height && forall y :: 0 <= y < |d| ==> |d[y]| == l.n * l.spp
    ensures Restored(l, d, b, 0, 0) && Joined(Items(Rows(l, b, 0, 0), rle)) == []
  {
    forall y | 0 <= y < |d| ensures |d[y]| == |b[y]| {
      assert ValidScan(l, b[y]);
    }
  }

  lemma ChannelBack(l: Layout, d: Bitmap, b: Bitmap, c: nat)
    requires Restored(l, d, b, c, l.height) && c < l.spp
    ensures Restored(l, d, b, c + 1, 0)
  {
  }

  /** Where row h of channel c is in the file, and its entry in the size table. */
  lemma RowThere(file: seq<byte>, start: nat, l: Layout, b: Bitmap, c: nat, h: nat, rle: bool)
    requires ValidBitmap(l, b) && c < l.spp && h < l.height && Here(file, start, Joined(Items(AllRows(l, b), rle)))
    ensures var items, item := Items(AllRows(l, b), rle), Item(Row(l, b, c, h), rle);
      && c * l.height + h < |items| && Sizes(items)[c * l.height + h] == |item|
      && Here(file, start + |Joined(Items(Rows(l, b, c, h), rle))|, item)
      && Joined(Items(Rows(l, b, c, h + 1), rle)) == Joined(Items(Rows(l, b, c, h), rle)) + item
      && (!rle ==> |item| == l.n * l.bytes)
  {
    hide Here, Joined, Row, Pack;
    RowCount(l, b, c, h);
    NextRow(l, b, c, h, rle);
    ItemHere(file, start, Items(AllRows(l, b), rle), |Rows(l, b, c, h)|);
    JoinedSnoc(Items(Rows(l, b, c, h), rle), Item(Row(l, b, c, h), rle));
    RowIs(l, b, c, h, ChannelOffset(l, c));
    LineLength(l, b[l.height - 1 - h], ChannelOffset(l, c), l.n);
  }

  /** The size table: read_proc and the byte swaps. */
  method ReadSizes(stream: MemoryStream.MemoryStream, n: nat, k: nat, ghost table: seq<nat>) returns (sizes: seq<nat>)
    requires stream.Valid() && |table| == n && Here(stream.Contents(), stream.currentPosition, Table(table, k))
    requires forall i :: 0 <= i < n ==> table[i] < Pow256(k)
    modifies stream`currentPosition
    ensures stream.Valid() && stream.Contents() == old(stream.Contents()) && sizes == table
    ensures stream.currentPosition == old(stream.currentPosition) + |Table(table, k)|
  {
    hide Table, Be, Pow256;
    TableLength(table, k);
    var x, bytes := stream.Read(k, n);
    ReadAll(old(stream.Contents()), old(stream.currentPosition), bytes, k, n, Table(table, k));
    sizes := [];
    var at := 0;
    ghost var end := stream.currentPosition;
    for index := 0 to n
      invariant stream.Valid() && stream.Contents() == old(stream.Contents()) && stream.currentPosition == end
      invariant at == index * k && sizes == table[..index]
    {
      TableEntry(table, k, index, at);
      MulDistributes(index, 1, k);
      sizes := sizes + [Be(bytes[at..at + k])];
      at := at + k;
    }
  }

  lemma ReadAll(contents: seq<byte>, pos: nat, bytes: seq<byte>, k: nat, n: nat, table: seq<byte>)
    requires Here(contents, pos, table) && |table| == n * k
    requires pos <= |contents| ==>
      var to := if pos + k * n <= |contents| then pos + k * n else |contents|;
      bytes == contents[pos..to]
    ensures bytes == table && pos + k * n <= |contents| && k * n == |table|
  {
    assert k * n == n * k;
  }

  /** Can the size table hold the lengths of all packed rows? */
  ghost predicate SizesFit(l: Layout, b: Bitmap, version: nat)
    requires ValidBitmap(l, b)
  {
    var sizes := Sizes(Items(AllRows(l, b), true));
    forall i :: 0 <= i < |sizes| ==> sizes[i] < Pow256(EntrySize(version))
  }

  /** ReadImageData, on image data that was written for the bitmap b. */
  method ReadImageData(stream: MemoryStream.MemoryStream, l: Layout, dib: Dib, version: nat, ghost b: Bitmap, ghost packed: bool)
      returns (ok: bool)
    requires stream.Valid() && ValidDib(l, dib) && ValidBitmap(l, b) && (packed ==> SizesFit(l, b, version))
    requires Here(stream.Contents(), stream.currentPosition, ImageData(l, b, packed, version))
    modifies stream`currentPosition, dib
    ensures ok && stream.Valid() && stream.Contents() == old(stream.Contents()) && BitmapOf(dib) == b
    ensures stream.currentPosition == old(stream.currentPosition) + |ImageData(l, b, packed, version)|
  {
    hide ValidBitmap, AllRows, Items, Joined, Sizes, Table, Be, Pow256, Here, BeBytes;
    ghost var file, start := stream.Contents(), stream.currentPosition;
    ghost var items := Items(AllRows(l, b), packed);
    DataParts(file, start, l, b, packed, version);
    var x, word := stream.Read(2, 1);
    HereBytes(file, start, BeBytes(if packed then COMPRESSION_RLE else COMPRESSION_NONE, 2), word);
    CompressionBack(packed);
    var compression := Be(word);
    if compression != COMPRESSION_NONE && compression != COMPRESSION_RLE {
      return false;
    }
    var sizes: seq<nat> := [];
    if compression == COMPRESSION_RLE {
      RowTotal(l, b, packed);
      sizes := ReadSizes(stream, l.spp * l.height, EntrySize(version), Sizes(items));
    }
    ReadRows(stream, l, dib, compression == COMPRESSION_RLE, sizes, b);
    return true;
  }

  lemma HereBytes(file: seq<byte>, pos: nat, bytes: seq<byte>, read: seq<byte>)
    requires Here(file, pos, bytes) && (pos + |bytes| <= |file| ==> read == file[pos..pos + |bytes|])
    ensures read == bytes
  {
  }

  lemma CompressionBack(rle: bool)
    ensures Be(BeBytes(if rle then COMPRESSION_RLE else COMPRESSION_NONE, 2)) == if rle then COMPRESSION_RLE else COMPRESSION_NONE
  {
    assert Pow256(1) == 256 && Pow256(2) == 0x1_0000;
    BeRoundTrip(if rle then COMPRESSION_RLE else COMPRESSION_NONE, 2);
  }

  lemma RowTotal(l: Layout, b: Bitmap, rle: bool)
    requires ValidBitmap(l, b)
    ensures |Sizes(Items(AllRows(l, b), rle))| == l.spp * l.height
  {
    RowCount(l, b, l.spp, 0);
  }

  /** The parts of image data in the file. */
  lemma DataParts(file: seq<byte>, start: nat, l: Layout, b: Bitmap, rle: bool, version: nat)
    requires ValidBitmap(l, b) && Here(file, start, ImageData(l, b, rle, version))
    ensures var items := Items(AllRows(l, b), rle);
      var word, table, rows := BeBytes(if rle then COMPRESSION_RLE else COMPRESSION_NONE, 2), TableOf(items, rle, version), Joined(items);
      && Here(file, start, word) && Here(file, start + 2, table) && Here(file, start + 2 + |table|, rows)
      && |ImageData(l, b, rle, version)| == 2 + |table| + |rows| && start + 2 <= |file|
  {
    hide AllRows, Items, Joined, Table, BeBytes, Here;
    var items := Items(AllRows(l, b), rle);
    var word, table, rows := BeBytes(if rle then COMPRESSION_RLE else COMPRESSION_NONE, 2), TableOf(items, rle, version), Joined(items);
    var all := ImageData(l, b, rle, version);
    assert all == [] + word + (table + rows);
    NextHere(file, start, [], word, all);
    assert word + table <= all;
    NextHere(file, start, word, table, all);
    assert (word + table) + rows == all;
    NextHere(file, start, word + table, rows, all);
    PartHere(file, start, word, 0, 2);
  }

  /** The version of the file: 2 on request, or for large pictures. */
  function VersionOf(width: nat, height: nat, psb: bool): nat
  {
    if psb || width > 30000 || height > 30000 then 2 else 1
  }

  /** With the version that is chosen for the picture the size table always has room, for lines of one-byte samples and
      for lines of single bits, which are shorter than the picture is wide. */
  lemma AlwaysFit(l: Layout, b: Bitmap, width: nat, psb: bool)
    requires ValidBitmap(l, b) && l.bytes == 1 && l.n <= width < 0x8000_0000
    ensures SizesFit(l, b, VersionOf(width, l.height, psb))
  {
    var rows, version := AllRows(l, b), VersionOf(width, l.height, psb);
    forall i | 0 <= i < |rows| ensures |Pack(rows[i])| < Pow256(EntrySize(version)) {
      EveryRow(l, b, l.spp, 0, i);
      PackedFits(rows[i], version);
    }
  }

  lemma {:induction false} EveryRow(l: Layout, b: Bitmap, c: nat, h: nat, i: nat)
    requires ValidBitmap(l, b) && c <= l.spp && h <= l.height && (c == l.spp ==> h == 0) && i < |Rows(l, b, c, h)|
    ensures |Rows(l, b, c, h)[i]| == l.n * l.bytes
    decreases c, h
  {
    hide Row;
    if h > 0 {
      if i < |Rows(l, b, c, h - 1)| {
        EveryRow(l, b, c, h - 1, i);
      } else {
        var off := ChannelOffset(l, c);
        RowIs(l, b, c, h - 1, off);
        LineLength(l, b[l.height - 1 - (h - 1)], off, l.n);
      }
    } else {
      EveryRow(l, b, c - 1, l.height, i);
    }
  }

  /** Writing image data and reading it back restores every sample. */
  method WriteAndRead(l: Layout, dib: Dib, back: Dib, rle: bool, version: nat) returns (ok: bool)
    requires ValidDib(l, dib) && ValidBitmap(l, BitmapOf(dib)) && ValidDib(l, back)
    requires forall y, z :: 0 <= y < |dib| && 0 <= z < |back| ==> dib[y] != back[z]
    requires rle ==> l.bytes == 1 && SizesFit(l, BitmapOf(dib), version)
    modifies back
    ensures ok <==> |ImageData(l, old(BitmapOf(dib)), rle, version)| < MemoryStream.MAX_LENGTH
    ensures ok ==> BitmapOf(back) == old(BitmapOf(dib))
  {
    hide ValidBitmap, ImageData, SizesFit;
    ghost var b := BitmapOf(dib);
    var stream := new MemoryStream.MemoryStream();
    ok := WriteImageData(stream, l, dib, rle, version);
    if ok {
      var _ := stream.Seek(0, MemoryStream.SeekSet);
      HereIs(stream.Contents(), 0, ImageData(l, b, rle, version));
      ok := ReadImageData(stream, l, back, version, b, rle);
    }
  }
}
