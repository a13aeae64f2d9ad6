/** Loading run-length TARGA packets: loadRLE of PluginTARGA.cpp, on packets that may cross lines. */
module TargaLoad {
  import opened Numbers
  import opened TargaPackets
  import opened FileParts
  import IoCache

  /** What _assignPixel makes of a pixel of the file. */
  type Assign = Pixel -> Pixel

  function Assigned(assign: Assign, px: seq<Pixel>): (r: seq<Pixel>)
    ensures |r| == |px|
  {
    seq(|px|, i requires 0 <= i < |px| => assign(px[i]))
  }

  // ---- Where the packets lie ----

  /** The bytes of the first j packets. */
  function BytesTo(ks: seq<Packet>, p: nat, j: nat): seq<byte>
    requires ValidPackets(ks, p) && j <= |ks|
  {
    if j == 0 then [] else BytesTo(ks, p, j - 1) + Bytes(ks[j - 1])
  }

  /** The pixels of the first j packets. */
  function ExpandTo(ks: seq<Packet>, j: nat): seq<Pixel>
    requires j <= |ks|
  {
    if j == 0 then [] else ExpandTo(ks, j - 1) + Pixels(ks[j - 1])
  }

  lemma {:induction false} ToIsAll(ks: seq<Packet>, p: nat, j: nat)
    requires ValidPackets(ks, p) && j <= |ks|
    ensures BytesTo(ks, p, j) == AllBytes(ks[..j], p) && ExpandTo(ks, j) == Expand(ks[..j])
  {
    if j > 0 {
      ToIsAll(ks, p, j - 1);
      assert ks[..j][..j - 1] == ks[..j - 1];
    }
  }

  lemma {:induction false} ToGrows(ks: seq<Packet>, p: nat, j: nat, n: nat)
    requires ValidPackets(ks, p) && j <= n <= |ks|
    ensures BytesTo(ks, p, j) <= BytesTo(ks, p, n) && ExpandTo(ks, j) <= ExpandTo(ks, n)
    decreases n
  {
    hide Bytes, Pixels;
    if j < n {
      ToGrows(ks, p, j, n - 1);
      Longer(BytesTo(ks, p, j), BytesTo(ks, p, n - 1), Bytes(ks[n - 1]));
      Longer(ExpandTo(ks, j), ExpandTo(ks, n - 1), Pixels(ks[n - 1]));
    }
  }

  lemma Longer<T>(a: seq<T>, b: seq<T>, c: seq<T>)
    requires a <= b
    ensures a <= b + c
  {
  }

  lemma {:induction false} FlatAt(pixels: seq<Pixel>, p: nat, i: nat)
    requires i < |pixels| && forall k :: 0 <= k < |pixels| ==> |pixels[k]| == p
    ensures i * p + p <= |Flat(pixels)| == |pixels| * p && Flat(pixels)[i * p..i * p + p] == pixels[i]
  {
    FlatLength(pixels, p);
    FlatLength(pixels[..|pixels| - 1], p);
    MulMono(i + 1, |pixels|, p);
    MulDistributes(i, 1, p);
    if i < |pixels| - 1 {
      MulMono(i + 1, |pixels| - 1, p);
      FlatAt(pixels[..|pixels| - 1], p, i);
    }
  }

  /** The test for corrupt packets never stops packets that fit the picture. */
  lemma NotCorrupt(x: nat, y: nat, count: nat, width: nat, height: nat, pixelSize: nat, pitch: nat)
    requires x <= width && y < height && y * width + x + count <= width * height && width * pixelSize <= pitch
    ensures y * pitch + x * pixelSize + count * pixelSize <= height * pitch
  {
    var rows := height - y;
    MulDistributes(y, rows, width);
    MulMono(x + count, rows * width, pixelSize);
    MulDistributes(x, count, pixelSize);
    MulAssoc(rows, width, pixelSize);
    MulMono(width * pixelSize, pitch, rows);
    MulDistributes(y, rows, pitch);
  }

  lemma PacketHere(file: seq<byte>, start: nat, ks: seq<Packet>, p: nat, j: nat)
    requires ValidPackets(ks, p) && j < |ks| && Here(file, start, BytesTo(ks, p, |ks|))
    ensures Here(file, start + |BytesTo(ks, p, j)|, Bytes(ks[j]))
  {
    hide Here, Bytes;
    ToGrows(ks, p, j + 1, |ks|);
    NextHere(file, start, BytesTo(ks, p, j), Bytes(ks[j]), BytesTo(ks, p, |ks|));
  }

  lemma PixelHere(file: seq<byte>, start: nat, pixels: seq<Pixel>, p: nat, i: nat, n: nat)
    requires i < |pixels| && (forall k :: 0 <= k < |pixels| ==> |pixels[k]| == p) && Here(file, start, Flat(pixels))
    requires n == i * p
    ensures start + n + p <= |file| && file[start + n..start + n + p] == pixels[i] && n + p == (i + 1) * p
  {
    FlatAt(pixels, p, i);
    PartHere(file, start, Flat(pixels), i * p, i * p + p);
    MulDistributes(i, 1, p);
  }

  lemma AssignedNone(assign: Assign)
    ensures Assigned(assign, []) == []
  {
  }

  lemma AssignedSnoc(assign: Assign, px: seq<Pixel>, v: Pixel)
    ensures Assigned(assign, px + [v]) == Assigned(assign, px) + [assign(v)]
  {
  }

  function Number(x: nat, y: nat, width: nat): nat
  {
    y * width + x
  }

  /** x and y of the next pixel. */
  method NextPixel(x: nat, y: nat, width: nat) returns (x': nat, y': nat)
    requires x < width
    ensures x' < width && Number(x', y', width) == Number(x, y, width) + 1
  {
    x', y' := x + 1, y;
    if x' >= width {
      MulDistributes(y, 1, width);
      x', y' := 0, y + 1;
    }
  }

  method PutPixel(dib: array<Pixel>, at: nat, v: Pixel)
    requires at < dib.Length
    modifies dib
    ensures dib[..at + 1] == old(dib[..at]) + [v]
  {
    dib[at] := v;
  }

  /** Fills count pixels with a value. */
  method LoadRun(assign: Assign, val: Pixel, count: nat, width: nat, dib: array<Pixel>, at: nat, x: nat, y: nat)
      returns (x': nat, y': nat)
    requires x < width && at == Number(x, y, width) && at + count <= dib.Length
    modifies dib
    ensures x' < width && at + count == Number(x', y', width)
    ensures dib[..at + count] == old(dib[..at]) + Assigned(assign, Copies(val, count))
  {
    hide Number, Assigned;
    AssignedNone(assign);
    assert Copies(val, 0) == [];
    x', y' := x, y;
    for ix := 0 to count
      invariant x' < width && at + ix == Number(x', y', width)
      invariant dib[..at + ix] == old(dib[..at]) + Assigned(assign, Copies(val, ix))
    {
      assert Copies(val, ix + 1) == Copies(val, ix) + [val];
      AssignedSnoc(assign, Copies(val, ix), val);
      PutPixel(dib, Number(x', y', width), assign(val));
      x', y' := NextPixel(x', y', width);
    }
  }

  /** Copies count pixels from the file. */
  method LoadRaw(cache: IoCache.IoCache, assign: Assign, p: nat, ghost pixels: seq<Pixel>, count: nat, width: nat,
      dib: array<Pixel>, at: nat, x: nat, y: nat) returns (x': nat, y': nat)
    requires x < width && at == Number(x, y, width) && at + count <= dib.Length && count == |pixels|
    requires cache.Valid() && p <= cache.size && (forall i :: 0 <= i < |pixels| ==> |pixels[i]| == p)
    requires cache.Position() >= 0 && Here(cache.File(), cache.Position(), Flat(pixels))
    modifies cache`ptr, cache`base, cache`filled, cache.buffer, cache.stream`currentPosition, dib
    ensures cache.Valid() && cache.File() == old(cache.File())
    ensures cache.Position() == old(cache.Position()) + |Flat(pixels)|
    ensures x' < width && at + count == Number(x', y', width)
    ensures dib[..at + count] == old(dib[..at]) + Assigned(assign, pixels)
  {
    hide Here, Flat, Assigned, Number;
    ghost var start, file := cache.Position(), cache.File();
    ghost var n := 0;
    FlatLength(pixels, p);
    AssignedNone(assign);
    assert pixels[..0] == [];
    x', y' := x, y;
    for ix := 0 to count
      invariant x' < width && at + ix == Number(x', y', width)
      invariant cache.Valid() && cache.File() == file && cache.Position() == start + n && n == ix * p
      invariant dib[..at + ix] == old(dib[..at]) + Assigned(assign, pixels[..ix])
    {
      PixelHere(file, start, pixels, p, ix, n);
      n := n + p;
      var val := cache.GetBytes(p);
      assert pixels[..ix + 1] == pixels[..ix] + [val];
      AssignedSnoc(assign, pixels[..ix], val);
      PutPixel(dib, Number(x', y', width), assign(val));
      x', y' := NextPixel(x', y', width);
    }
    assert pixels[..count] == pixels;
  }

  /** loadRLE: packets that stand for exactly the pixels of the picture. */
  method LoadRle(cache: IoCache.IoCache, assign: Assign, p: nat, width: nat, height: nat, pixelSize: nat, pitch: nat,
      dib: array<Pixel>, ghost ks: seq<Packet>) returns (ok: bool)
    requires cache.Valid() && 0 < p <= cache.size && width > 0 && width * pixelSize <= pitch
    requires ValidPackets(ks, p) && |Expand(ks)| == width * height == dib.Length
    requires cache.Position() >= 0 && Here(cache.File(), cache.Position(), AllBytes(ks, p))
    modifies cache`ptr, cache`base, cache`filled, cache.buffer, cache.stream`currentPosition, dib
    ensures ok && cache.Valid() && cache.File() == old(cache.File())
    ensures cache.Position() == old(cache.Position()) + |AllBytes(ks, p)|
    ensures dib[..] == Assigned(assign, Expand(ks))
  {
    hide Here, Bytes, Pixels, Assigned, AllBytes, Expand;
    ghost var start, file := cache.Position(), cache.File();
    ToIsAll(ks, p, |ks|);
    assert ks[..|ks|] == ks;
    AssignedNone(assign);
    var x: nat, y: nat := 0, 0;
    ghost var j: nat := 0;
    while y < height
      invariant j <= |ks| && x < width && y * width + x == |ExpandTo(ks, j)| <= dib.Length
      invariant cache.Valid() && cache.File() == file && cache.Position() == start + |BytesTo(ks, p, j)|
      invariant dib[..|ExpandTo(ks, j)|] == Assigned(assign, ExpandTo(ks, j))
      decreases |ks| - j
    {
      MorePackets(ks, p, j, x, y, width, height);
      PacketHere(file, start, ks, p, j);
      ToGrows(ks, p, j + 1, |ks|);
      AssignedAppend(assign, ExpandTo(ks, j), Pixels(ks[j]));
      ok, x, y := LoadPacket(cache, assign, p, width, height, pixelSize, pitch, dib, y * width + x, x, y, ks[j]);
      j := j + 1;
    }
    AllLoaded(ks, p, j, x, y, width, height);
    assert dib[..] == dib[..dib.Length];
    return true;
  }

  lemma AssignedAppend(assign: Assign, a: seq<Pixel>, b: seq<Pixel>)
    ensures Assigned(assign, a + b) == Assigned(assign, a) + Assigned(assign, b)
  {
  }

  /** One packet. */
  method LoadPacket(cache: IoCache.IoCache, assign: Assign, p: nat, width: nat, height: nat, pixelSize: nat, pitch: nat,
      dib: array<Pixel>, at: nat, x: nat, y: nat, ghost k: Packet) returns (ok: bool, x': nat, y': nat)
    requires cache.Valid() && 0 < p <= cache.size && x < width && y < height && width * pixelSize <= pitch
    requires at == y * width + x && at + Count(k) <= width * height == dib.Length
    requires ValidPacket(k, p) && cache.Position() >= 0 && Here(cache.File(), cache.Position(), Bytes(k))
    modifies cache`ptr, cache`base, cache`filled, cache.buffer, cache.stream`currentPosition, dib
    ensures ok && cache.Valid() && cache.File() == old(cache.File())
    ensures cache.Position() == old(cache.Position()) + |Bytes(k)|
    ensures x' < width && at + Count(k) == y' * width + x'
    ensures dib[..at + Count(k)] == old(dib[..at]) + Assigned(assign, Pixels(k))
  {
    hide Assigned, Flat, Here;
    HeaderHere(cache.File(), cache.Position(), k, p);
    x', y' := x, y;
    var rle := cache.GetByte();
    var hasRle := rle >= 0x80;
    var packetCount := rle % 0x80 + 1;
    NotCorrupt(x, y, packetCount, width, height, pixelSize, pitch);
    if y * pitch + x * pixelSize + packetCount * pixelSize > height * pitch {
      return false, x, y;
    }
    if hasRle {
      var val := cache.GetBytes(p);
      x', y' := LoadRun(assign, val, packetCount, width, dib, at, x, y);
    } else {
      x', y' := LoadRaw(cache, assign, p, k.pixels, packetCount, width, dib, at, x, y);
    }
    return true, x', y';
  }

  /** What the header says, and what lies behind it. */
  lemma HeaderHere(file: seq<byte>, pos: nat, k: Packet, p: nat)
    requires ValidPacket(k, p) && Here(file, pos, Bytes(k))
    ensures pos < |file| && (file[pos] >= 0x80 <==> k.Run?) && file[pos] % 0x80 + 1 == Count(k)
    ensures k.Run? ==> |Bytes(k)| == 1 + p && pos + 1 + p <= |file| && file[pos + 1..pos + 1 + p] == k.pixel
    ensures k.Raw? ==> |Bytes(k)| == 1 + |Flat(k.pixels)| && Here(file, pos + 1, Flat(k.pixels))
  {
    var bytes := Bytes(k);
    PartHere(file, pos, bytes, 0, 1);
    PartHere(file, pos, bytes, 1, |bytes|);
    assert file[pos] == file[pos + 0..pos + 1][0] == bytes[0];
    assert bytes[1..|bytes|] == if k.Run? then k.pixel else Flat(k.pixels);
  }

  /** There is a packet for the next pixel. */
  lemma MorePackets(ks: seq<Packet>, p: nat, j: nat, x: nat, y: nat, width: nat, height: nat)
    requires ValidPackets(ks, p) && j <= |ks| && x < width && y < height
    requires y * width + x == |ExpandTo(ks, j)| && |ExpandTo(ks, |ks|)| == width * height
    ensures j < |ks|
  {
    MulMono(y + 1, height, width);
    MulDistributes(y, 1, width);
  }

  /** When the last line has been filled there are no more packets. */
  lemma AllLoaded(ks: seq<Packet>, p: nat, j: nat, x: nat, y: nat, width: nat, height: nat)
    requires ValidPackets(ks, p) && j <= |ks| && x < width && y >= height
    requires y * width + x == |ExpandTo(ks, j)| && |ExpandTo(ks, |ks|)| == width * height
    ensures j == |ks|
  {
    hide Bytes, BytesTo, Pixels;
    MulMono(height, y, width);
    if j < |ks| {
      ToGrows(ks, p, j + 1, |ks|);
    }
  }
}
