/** Saving a picture in run-length TARGA packets and loading it again. */
module TargaRoundTrip {
  import opened Numbers
  import opened TargaPackets
  import opened TargaSave
  import opened TargaLoad
  import opened FileParts
  import MemoryStream
  import IoCache

  type Line = seq<Pixel>

  ghost predicate ValidPicture(lines: seq<Line>, width: nat, p: nat)
  {
    p > 0 && width > 0 && forall i :: 0 <= i < |lines| ==> |lines[i]| == width && ValidLine(lines[i], p)
  }

  /** The pixels of all lines. */
  function Concat(lines: seq<Line>): seq<Pixel>
  {
    if lines == [] then [] else Concat(lines[..|lines| - 1]) + lines[|lines| - 1]
  }

  lemma {:induction false} ConcatLength(lines: seq<Line>, width: nat)
    requires forall i :: 0 <= i < |lines| ==> |lines[i]| == width
    ensures |Concat(lines)| == |lines| * width
  {
    if lines != [] {
      ConcatLength(lines[..|lines| - 1], width);
      MulDistributes(|lines| - 1, 1, width);
    }
  }

  lemma {:induction false} AppendPackets(a: seq<Packet>, b: seq<Packet>, p: nat)
    requires ValidPackets(a, p) && ValidPackets(b, p)
    ensures ValidPackets(a + b, p)
    ensures AllBytes(a + b, p) == AllBytes(a, p) + AllBytes(b, p) && Expand(a + b) == Expand(a) + Expand(b)
  {
    hide Bytes, Pixels;
    if b == [] {
      assert a + b == a;
    } else {
      var c, k := b[..|b| - 1], b[|b| - 1];
      AppendPackets(a, c, p);
      assert (a + b)[..|a + b| - 1] == a + c && (a + b)[|a + b| - 1] == k;
    }
  }

  /** A line takes at least its first packet. */
  lemma {:induction false} SomeBytes(ks: seq<Packet>, p: nat)
    requires ValidPackets(ks, p) && Expand(ks) != []
    ensures |AllBytes(ks, p)| >= 1 + p
  {
    var k := ks[|ks| - 1];
    BytesLength(k, p);
    if k.Raw? {
      MulMono(1, |k.pixels|, p);
    }
  }

  /** The packets of all lines. */
  function Join(kss: seq<seq<Packet>>): seq<Packet>
  {
    if kss == [] then [] else Join(kss[..|kss| - 1]) + kss[|kss| - 1]
  }

  /** Each line has packets of its own, which are greedy: no packet crosses a line. */
  ghost predicate ByLines(lines: seq<Line>, p: nat, kss: seq<seq<Packet>>)
  {
    |kss| <= |lines| && forall y :: 0 <= y < |kss| ==> Greedy(kss[y], p) && Expand(kss[y]) == lines[y]
  }

  /** What has been written for the first lines. */
  ghost predicate Saved(lines: seq<Line>, p: nat, kss: seq<seq<Packet>>, bytes: seq<byte>)
  {
    && ByLines(lines, p, kss)
    && ValidPackets(Join(kss), p) && Expand(Join(kss)) == Concat(lines[..|kss|]) && bytes == AllBytes(Join(kss), p)
    && |kss| * (1 + p) <= |bytes|
  }

  lemma SavedMore(lines: seq<Line>, p: nat, kss: seq<seq<Packet>>, bytes: seq<byte>, more: seq<Packet>)
    requires Saved(lines, p, kss, bytes) && |kss| < |lines| && Greedy(more, p) && Expand(more) == lines[|kss|] != []
    ensures ValidPackets(more, p) && Saved(lines, p, kss + [more], bytes + AllBytes(more, p))
  {
    hide Greedy, Join, Concat, Expand, AllBytes;
    assert ValidPackets(more, p) by { GreedyIsValid(more, p); }
    AppendPackets(Join(kss), more, p);
    SomeBytes(more, p);
    MulDistributes(|kss|, 1, 1 + p);
    JoinSnoc(kss, more);
    ConcatSnoc(lines, |kss|);
  }

  lemma GreedyIsValid(ks: seq<Packet>, p: nat)
    requires Greedy(ks, p)
    ensures ValidPackets(ks, p)
  {
  }

  lemma JoinSnoc(kss: seq<seq<Packet>>, more: seq<Packet>)
    ensures Join(kss + [more]) == Join(kss) + more
  {
    assert (kss + [more])[..|kss|] == kss;
  }

  lemma ConcatSnoc(lines: seq<Line>, n: nat)
    requires n < |lines|
    ensures Concat(lines[..n + 1]) == Concat(lines[..n]) + lines[n]
  {
    assert lines[..n + 1][..n] == lines[..n];
  }

  /** saveRLE: line by line. */
  method SaveRle(lines: seq<Line>, width: nat, p: nat, stream: MemoryStream.MemoryStream) returns (ghost kss: seq<seq<Packet>>)
    requires ValidPicture(lines, width, p) && stream.Valid() && stream.currentPosition == stream.fileLength
    requires stream.fileLength + |lines| * LineRoom(width, p) < MemoryStream.MAX_LENGTH
    modifies stream, stream.data
    ensures stream.Valid() && (stream.data == old(stream.data) || fresh(stream.data))
    ensures stream.currentPosition == stream.fileLength
    ensures |kss| == |lines| && ByLines(lines, p, kss)
    ensures exists bytes :: Saved(lines, p, kss, bytes) && stream.Contents() == old(stream.Contents()) + bytes
  {
    hide ValidPicture, Saved, ByLines, AllBytes, Greedy, Expand, LineRoom, MemoryStream.MemoryStream.Valid;
    ghost var bytes: seq<byte> := [];
    kss := [];
    SavedNone(lines, p);
    var lineBegin := new byte[LineRoom(width, p)];
    ghost var room := 0;
    for y := 0 to |lines|
      invariant stream.Valid() && (stream.data == old(stream.data) || fresh(stream.data)) && lineBegin != stream.data
      invariant |kss| == y && Saved(lines, p, kss, bytes) && stream.Contents() == old(stream.Contents()) + bytes
      invariant stream.currentPosition == stream.fileLength
      invariant room == y * LineRoom(width, p) && |bytes| <= room
    {
      LineOf(lines, width, p, y);
      MulMono(y + 1, |lines|, LineRoom(width, p));
      MulDistributes(y, 1, LineRoom(width, p));
      var length, more := SaveLine(lines[y], p, lineBegin);
      SavedMore(lines, p, kss, bytes, more);
      assert stream.fileLength == |stream.Contents()|;
      var _ := stream.Write(lineBegin[..length], 1, length);
      kss, bytes := kss + [more], bytes + AllBytes(more, p);
      room := room + LineRoom(width, p);
    }
    SavedByLines(lines, p, kss, bytes);
  }

  lemma SavedNone(lines: seq<Line>, p: nat)
    ensures Saved(lines, p, [], [])
  {
  }

  lemma SavedByLines(lines: seq<Line>, p: nat, kss: seq<seq<Packet>>, bytes: seq<byte>)
    requires Saved(lines, p, kss, bytes)
    ensures ByLines(lines, p, kss)
  {
  }

  lemma LineOf(lines: seq<Line>, width: nat, p: nat, y: nat)
    requires ValidPicture(lines, width, p) && y < |lines|
    ensures ValidLine(lines[y], p) && lines[y] != [] && |lines[y]| == width
  {
  }

  /** The pixel that is loaded for one that was saved: 16-bit pixels lose their highest bit. */
  function AssignPixel(v: Pixel): Pixel
  {
    if |v| == 2 then [v[0], v[1] % 0x80] else v
  }

  /** Pixel x of line y is in the bitmap, byte for byte but for the highest bit of a 16-bit pixel. */
  ghost predicate Restored(lines: seq<Line>, width: nat, p: nat, d: seq<Pixel>, y: nat, x: nat)
  {
    && y < |lines| && x < |lines[y]| && |lines[y][x]| == p && y * width + x < |d|
    && d[y * width + x] == if p == 2 then [lines[y][x][0], lines[y][x][1] % 0x80] else lines[y][x]
  }

  lemma {:induction false} ConcatAt(lines: seq<Line>, width: nat, y: nat, x: nat)
    requires (forall i :: 0 <= i < |lines| ==> |lines[i]| == width) && y < |lines| && x < width
    ensures y * width + x < |Concat(lines)| && Concat(lines)[y * width + x] == lines[y][x]
  {
    var before := lines[..|lines| - 1];
    ConcatLength(before, width);
    if y < |before| {
      ConcatAt(before, width, y, x);
    }
  }

  lemma RestoredPixel(lines: seq<Line>, width: nat, p: nat, d: seq<Pixel>, y: nat, x: nat)
    requires ValidPicture(lines, width, p) && d == Assigned(AssignPixel, Concat(lines)) && y < |lines| && x < width
    ensures Restored(lines, width, p, d, y, x)
  {
    hide Concat, ValidPicture;
    LineOf(lines, width, p, y);
    EveryLine(lines, width, p);
    ConcatAt(lines, width, y, x);
    var k := y * width + x;
    assert d[k] == AssignPixel(Concat(lines)[k]);
  }

  lemma EveryLine(lines: seq<Line>, width: nat, p: nat)
    requires ValidPicture(lines, width, p)
    ensures forall i :: 0 <= i < |lines| ==> |lines[i]| == width
  {
  }

  /** Saving and loading restores every pixel. */
  method SaveAndLoad(lines: seq<Line>, width: nat, p: nat, pitch: nat, dib: array<Pixel>)
    requires ValidPicture(lines, width, p) && lines != [] && dib.Length == |lines| * width && width * p <= pitch
    requires |lines| * LineRoom(width, p) < MemoryStream.MAX_LENGTH
    modifies dib
    ensures dib[..] == Assigned(AssignPixel, Concat(lines))
    ensures forall y, x :: 0 <= y < |lines| && 0 <= x < width ==> Restored(lines, width, p, dib[..], y, x)
  {
    hide Saved, ByLines, Join, ValidPicture, AllBytes, Expand, Assigned, LineRoom, Restored, Concat;
    var stream := new MemoryStream.MemoryStream();
    ghost var kss := SaveRle(lines, width, p, stream);
    ghost var bytes :| Saved(lines, p, kss, bytes) && stream.Contents() == [] + bytes;
    ghost var ks := Join(kss);
    SavedIs(lines, width, p, kss, bytes);
    var _ := stream.Seek(0, MemoryStream.SeekSet);
    var height := |lines|;
    var eof := stream.fileLength;
    CacheSize(eof, height, p);
    var cache := new IoCache.IoCache(stream, eof / height);
    assert Here(cache.File(), 0, AllBytes(ks, p)) by { HereIs(bytes, 0, bytes); }
    var _ := LoadRle(cache, AssignPixel, p, width, height, p, pitch, dib, ks);
    forall y, x | 0 <= y < |lines| && 0 <= x < width ensures Restored(lines, width, p, dib[..], y, x) {
      RestoredPixel(lines, width, p, dib[..], y, x);
    }
  }

  lemma SavedIs(lines: seq<Line>, width: nat, p: nat, kss: seq<seq<Packet>>, bytes: seq<byte>)
    requires ValidPicture(lines, width, p) && Saved(lines, p, kss, bytes) && |kss| == |lines|
    ensures var ks := Join(kss);
      ValidPackets(ks, p) && Expand(ks) == Concat(lines) && bytes == AllBytes(ks, p)
      && |lines| * (1 + p) <= |bytes| && |Expand(ks)| == |lines| * width && p > 0 && width > 0
  {
    assert lines[..|lines|] == lines;
    ConcatLength(lines, width);
  }

  lemma CacheSize(eof: nat, height: nat, p: nat)
    requires height > 0 && height * (1 + p) <= eof
    ensures eof / height >= 1 + p
  {
    var q := eof / height;
    assert eof < (q + 1) * height;
    if q < 1 + p {
      MulMono(q + 1, 1 + p, height);
      assert false;
    }
  }
}
