/** The lossless quantizer of LFPQuantizer.cpp: an open-addressing hash table from colours to palette indices. */
module LfpQuantizer {
  import opened Numbers

  const MAX_SIZE := 256
  const MAP_SIZE := 2 * MAX_SIZE
  const EMPTY_BUCKET := 0xFFFF_FFFF

  datatype MapEntry = MapEntry(color: nat, index: nat)

  // ---- The table as a value ----

  type Hash = nat -> nat

  function Home(hash: Hash, color: nat): (b: nat)
    ensures b < MAP_SIZE
  {
    hash(color) % MAP_SIZE
  }

  /** The bucket after k steps of probing. */
  function Probe(hash: Hash, color: nat, k: nat): nat
  {
    (Home(hash, color) + k) % MAP_SIZE
  }

  /** The number of steps from the home of a colour to a bucket. */
  function Steps(hash: Hash, color: nat, b: nat): (k: nat)
    requires b < MAP_SIZE
    ensures k < MAP_SIZE && Probe(hash, color, k) == b
    ensures forall j: nat :: j < MAP_SIZE && Probe(hash, color, j) == b ==> j == k
  {
    var h := Home(hash, color);
    if b >= h then b - h else b + MAP_SIZE - h
  }

  predicate Empty(m: seq<MapEntry>, b: nat)
    requires b < |m|
  {
    m[b].color == EMPTY_BUCKET
  }

  /** No bucket that probing for this colour passes in its first k steps is empty or holds the colour. */
  ghost predicate Passed(m: seq<MapEntry>, hash: Hash, color: nat, k: nat)
    requires |m| == MAP_SIZE
  {
    forall j: nat :: j < k ==> !Empty(m, Probe(hash, color, j)) && m[Probe(hash, color, j)].color != color
  }

  /** Every colour is found by probing. */
  ghost predicate ValidTable(m: seq<MapEntry>, hash: Hash)
  {
    |m| == MAP_SIZE && forall b :: 0 <= b < MAP_SIZE && !Empty(m, b) ==> Passed(m, hash, m[b].color, Steps(hash, m[b].color, b))
  }

  ghost function Used(m: seq<MapEntry>): set<nat>
  {
    set b: nat | b < |m| && !Empty(m, b)
  }

  /** The table as a map from colours to indices. */
  ghost predicate Holds(m: seq<MapEntry>, table: map<nat, nat>)
  {
    && (forall b :: 0 <= b < |m| && !Empty(m, b) ==> m[b].color in table && table[m[b].color] == m[b].index)
    && forall c :: c in table ==> InTable(m, c)
  }

  ghost predicate InTable(m: seq<MapEntry>, color: nat)
  {
    exists b :: 0 <= b < |m| && !Empty(m, b) && m[b].color == color
  }

  /** Where probing for a colour ends: at the colour if the table holds it, and at an empty bucket otherwise. */
  lemma ProbeEnds(m: seq<MapEntry>, hash: Hash, table: map<nat, nat>, color: nat, k: nat)
    requires ValidTable(m, hash) && Holds(m, table) && Passed(m, hash, color, k) && color != EMPTY_BUCKET
    ensures var b := Probe(hash, color, k);
      && (m[b].color == color ==> color in table && table[color] == m[b].index)
      && (Empty(m, b) ==> color !in table)
  {
    assert color in table ==> InTable(m, color);
  }

  /** Probing meets an empty bucket before it comes round. */
  lemma ProbeStops(m: seq<MapEntry>, hash: Hash, color: nat, k: nat, e: nat)
    requires |m| == MAP_SIZE && Passed(m, hash, color, k) && e < MAP_SIZE && Empty(m, e)
    ensures k <= Steps(hash, color, e) < MAP_SIZE
  {
    var d := Steps(hash, color, e);
    assert Probe(hash, color, d) == e;
  }

  /** Putting a colour into the empty bucket where its probing ended. */
  lemma PutValid(m: seq<MapEntry>, hash: Hash, table: map<nat, nat>, color: nat, k: nat, index: nat)
    requires ValidTable(m, hash) && Holds(m, table) && Passed(m, hash, color, k) && color != EMPTY_BUCKET && k < MAP_SIZE
    requires Empty(m, Probe(hash, color, k))
    ensures var b := Probe(hash, color, k);
      var m' := m[b := MapEntry(color, index)];
      && color !in table && ValidTable(m', hash) && Holds(m', table[color := index])
      && Used(m') == Used(m) + {b} && b !in Used(m)
  {
    ProbeEnds(m, hash, table, color, k);
    var b := Probe(hash, color, k);
    var m' := m[b := MapEntry(color, index)];
    assert Steps(hash, color, b) == k;
    forall c | 0 <= c < MAP_SIZE && !Empty(m', c) ensures Passed(m', hash, m'[c].color, Steps(hash, m'[c].color, c)) {
      if c != b {
        assert m'[c].color in table;
        assert Passed(m, hash, m[c].color, Steps(hash, m[c].color, c));
      }
    }
    forall c | c in table[color := index] ensures InTable(m', c) {
      if c == color {
        assert m'[b].color == color;
      } else {
        assert InTable(m, c);
        var d :| 0 <= d < |m| && !Empty(m, d) && m[d].color == c;
        assert m'[d].color == c;
      }
    }
  }

  function Below(n: nat): (s: set<nat>)
    ensures |s| == n && forall b: nat :: b in s <==> b < n
  {
    if n == 0 then {} else Below(n - 1) + {n - 1}
  }

  /** Fewer used buckets than there are leave an empty one. */
  lemma SomeEmpty(m: seq<MapEntry>) returns (e: nat)
    requires |m| == MAP_SIZE && |Used(m)| < MAP_SIZE
    ensures e < MAP_SIZE && Empty(m, e)
  {
    var all := Below(MAP_SIZE);
    assert Used(m) != all;
    e :| e in all && e !in Used(m);
  }

  // ---- Images ----

  /** An image of 24 or 32 bits per pixel, as the bytes of its lines. */
  datatype Image = Image(width: nat, height: nat, bpp: nat, pitch: nat, bits: seq<byte>)

  ghost predicate ValidImage(image: Image)
  {
    && image.width > 0 && image.height > 0 && (image.bpp == 24 || image.bpp == 32)
    && image.width * (image.bpp / 8) <= image.pitch && |image.bits| == image.height * image.pitch
  }

  /** Reading four bytes as a little-endian number, and masking the highest one. */
  function Masked(bits: seq<byte>, at: nat): nat
    requires at + 4 <= |bits|
  {
    var b0: int, b1: int, b2: int, b3: int := bits[at], bits[at + 1], bits[at + 2], bits[at + 3];
    (b0 + 0x100 * b1 + 0x1_0000 * b2 + 0x100_0000 * b3) % 0x100_0000
  }

  /** A colour from its three bytes. */
  function Color(bits: seq<byte>, at: nat): (c: nat)
    requires at + 3 <= |bits|
    ensures c < 0x100_0000
  {
    var b0: int, b1: int, b2: int := bits[at], bits[at + 1], bits[at + 2];
    b0 + 0x100 * b1 + 0x1_0000 * b2
  }

  lemma MaskedIsColor(bits: seq<byte>, at: nat)
    requires at + 4 <= |bits|
    ensures Masked(bits, at) == Color(bits, at)
  {
  }

  function PixelAt(image: Image, y: nat, x: nat): nat
  {
    y * image.pitch + x * (image.bpp / 8)
  }

  /** A pixel is within the image; all but the last one of a 24-bit image have a fourth byte behind them. */
  lemma PixelInside(image: Image, y: nat, x: nat)
    requires ValidImage(image) && y < image.height && x < image.width
    ensures PixelAt(image, y, x) + 3 <= |image.bits|
    ensures image.bpp == 32 || y + 1 < image.height || x + 1 < image.width ==> PixelAt(image, y, x) + 4 <= |image.bits|
  {
    var p := image.bpp / 8;
    MulMono(x + 1, image.width, p);
    MulDistributes(x, 1, p);
    MulMono(y + 1, image.height, image.pitch);
    MulDistributes(y, 1, image.pitch);
    if y + 1 < image.height {
      MulMono(y + 2, image.height, image.pitch);
      MulDistributes(y + 1, 1, image.pitch);
      MulMono(1, image.width, p);
    }
    if x + 1 < image.width {
      MulMono(x + 2, image.width, p);
      MulDistributes(x + 1, 1, p);
    }
  }

  function Pixel(image: Image, y: nat, x: nat): nat
    requires ValidImage(image) && y < image.height && x < image.width
  {
    PixelInside(image, y, x);
    Color(image.bits, PixelAt(image, y, x))
  }

  /** The colours of the first x pixels of line y. */
  ghost function LineColors(image: Image, y: nat, x: nat): set<nat>
    requires ValidImage(image) && y < image.height && x <= image.width
  {
    if x == 0 then {} else LineColors(image, y, x - 1) + {Pixel(image, y, x - 1)}
  }

  /** The colours of the first y lines. */
  ghost function Colors(image: Image, y: nat): set<nat>
    requires ValidImage(image) && y <= image.height
  {
    if y == 0 then {} else Colors(image, y - 1) + LineColors(image, y - 1, image.width)
  }

  /** The colours of the whole image. */
  ghost function Palette(image: Image): set<nat>
    requires ValidImage(image)
  {
    Colors(image, image.height)
  }

  lemma {:induction false} ColorsWithin(image: Image, y: nat, x: nat)
    requires ValidImage(image) && y < image.height && x <= image.width
    ensures Colors(image, y) + LineColors(image, y, x) <= Palette(image)
    decreases image.height - y, image.width - x
  {
    if x < image.width {
      ColorsWithin(image, y, x + 1);
    } else if y + 1 < image.height {
      ColorsWithin(image, y + 1, 0);
      assert Colors(image, y + 1) == Colors(image, y) + LineColors(image, y, x);
    }
  }

  lemma {:induction false} LineColorsAre(image: Image, y: nat, x: nat, c: nat)
    requires ValidImage(image) && y < image.height && x <= image.width
    ensures c in LineColors(image, y, x) <==> exists i: nat :: i < x && c == Pixel(image, y, i)
  {
    if x > 0 {
      LineColorsAre(image, y, x - 1, c);
      if c == Pixel(image, y, x - 1) {
        assert x - 1 < x && c == Pixel(image, y, x - 1);
      }
    }
  }

  lemma {:induction false} ColorsAre(image: Image, y: nat, c: nat)
    requires ValidImage(image) && y <= image.height
    ensures c in Colors(image, y) <==> exists i: nat, j: nat :: i < y && j < image.width && c == Pixel(image, i, j)
    decreases y
  {
    hide Pixel, LineColors;
    if y > 0 {
      var last := y - 1;
      ColorsAre(image, last, c);
      LineColorsAre(image, last, image.width, c);
      if i: nat :| i < image.width && c == Pixel(image, last, i) {
        assert last < y && c == Pixel(image, last, i);
      }
    }
  }

  /** The colours that are counted are exactly those of the pixels. */
  lemma PaletteIs(image: Image, c: nat)
    requires ValidImage(image)
    ensures c in Palette(image) <==> exists y: nat, x: nat :: y < image.height && x < image.width && c == Pixel(image, y, x)
  {
    ColorsAre(image, image.height, c);
  }

  /** The number has the blue, green and red byte of the pixel, from the lowest byte up, and no fourth byte. */
  ghost predicate HasBytes(image: Image, y: nat, x: nat, c: nat)
  {
    var at := y * image.pitch + x * (image.bpp / 8);
    && at + 3 <= |image.bits|
    && image.bits[at] == c % 0x100 && image.bits[at + 1] == c / 0x100 % 0x100 && image.bits[at + 2] == c / 0x1_0000
  }

  /** The colour of a pixel is the number that has its bytes. */
  lemma BytesOfPixel(image: Image, y: nat, x: nat, c: nat)
    requires ValidImage(image) && y < image.height && x < image.width
    ensures c == Pixel(image, y, x) <==> HasBytes(image, y, x, c)
  {
    PixelInside(image, y, x);
    ThreeBytes(image.bits, PixelAt(image, y, x), c);
  }

  lemma ThreeBytes(bits: seq<byte>, at: nat, c: nat)
    requires at + 3 <= |bits|
    ensures c == Color(bits, at) <==> bits[at] == c % 0x100 && bits[at + 1] == c / 0x100 % 0x100 && bits[at + 2] == c / 0x1_0000
  {
    var b0: int, b1: int, b2: int := bits[at], bits[at + 1], bits[at + 2];
    assert c == c % 0x100 + 0x100 * (c / 0x100 % 0x100) + 0x1_0000 * (c / 0x1_0000);
    if c == Color(bits, at) {
      assert (b0 + 0x100 * b1 + 0x1_0000 * b2) / 0x1_0000 == b2;
    }
  }

  /** Two pixels have the same colour exactly when their three bytes are the same, so the palette counts the different
      24-bit colours. */
  lemma SameBytes(image: Image, y: nat, x: nat, i: nat, j: nat)
    requires ValidImage(image) && y < image.height && x < image.width && i < image.height && j < image.width
    ensures var at, to := PixelAt(image, y, x), PixelAt(image, i, j);
      && at + 3 <= |image.bits| && to + 3 <= |image.bits|
      && (Pixel(image, y, x) == Pixel(image, i, j) <==> image.bits[at..at + 3] == image.bits[to..to + 3])
  {
    hide PixelAt, Color;
    PixelInside(image, y, x);
    PixelInside(image, i, j);
    SameThree(image.bits, PixelAt(image, y, x), PixelAt(image, i, j));
  }

  lemma SameThree(bits: seq<byte>, at: nat, to: nat)
    requires at + 3 <= |bits| && to + 3 <= |bits|
    ensures Color(bits, at) == Color(bits, to) <==> bits[at..at + 3] == bits[to..to + 3]
  {
    hide Color;
    ThreeBytes(bits, at, Color(bits, to));
    ThreeBytes(bits, to, Color(bits, to));
    var a, b := bits[at..at + 3], bits[to..to + 3];
    assert a[0] == bits[at] && a[1] == bits[at + 1] && a[2] == bits[at + 2];
    assert b[0] == bits[to] && b[1] == bits[to + 1] && b[2] == bits[to + 2];
  }

  /** The colours that are counted are exactly the numbers that have the bytes of a pixel. */
  lemma PaletteBytes(image: Image, c: nat)
    requires ValidImage(image)
    ensures c in Palette(image) <==>
      exists y: nat, x: nat :: y < image.height && x < image.width && HasBytes(image, y, x, c)
  {
    hide Palette, Pixel, HasBytes;
    PaletteIs(image, c);
    forall y: nat, x: nat | y < image.height && x < image.width
      ensures c == Pixel(image, y, x) <==> HasBytes(image, y, x, c)
    {
      BytesOfPixel(image, y, x, c);
    }
  }

  /** A reserve palette is cut at 256 colours. */
  function Clamped(n: nat): (r: nat)
    ensures r <= n && r <= 256 && (r == n || r == 256)
  {
    if n > MAX_SIZE then MAX_SIZE else n
  }

  // ---- The quantizer ----

  class LfpQuantizer {
    const hash: Hash
    const limit: nat
    const entries: array<MapEntry>
    var size: nat
    var index: nat
    // The table as a map, the part of it that came from the reserve palette, and the size of that.
    ghost var table: map<nat, nat>
    ghost var reserve: map<nat, nat>
    ghost var reserved: nat

    ghost predicate Valid()
      reads this, entries
    {
      && entries.Length == MAP_SIZE && ValidTable(entries[..], hash) && Holds(entries[..], table)
      && |Used(entries[..])| <= size && size == reserved + index <= limit <= MAX_SIZE
      && Indexed(table, reserve, limit - reserved, limit, index)
    }

    constructor (hash: Hash, paletteSize: nat)
      requires paletteSize <= MAX_SIZE
      ensures Valid() && fresh(entries) && limit == paletteSize && this.hash == hash
      ensures table == map[] && reserve == map[] && size == 0
    {
      this.hash, limit := hash, paletteSize;
      size, index, reserved := 0, 0, 0;
      table, reserve := map[], map[];
      entries := new MapEntry[MAP_SIZE](i => MapEntry(EMPTY_BUCKET, EMPTY_BUCKET));
      new;
      assert Used(entries[..]) == {};
    }

    /** Fills the empty bucket where probing ended. */
    method Put(bucket: nat, entry: MapEntry, ghost k: nat)
      requires entries.Length == MAP_SIZE && ValidTable(entries[..], hash) && Holds(entries[..], table)
      requires Passed(entries[..], hash, entry.color, k) && bucket == Probe(hash, entry.color, k) && k < MAP_SIZE
      requires bucket < MAP_SIZE && Empty(entries[..], bucket) && entry.color != EMPTY_BUCKET
      modifies this`table, entries
      ensures ValidTable(entries[..], hash) && Holds(entries[..], table) && entries[bucket] == entry
      ensures entry.color !in old(table) && table == old(table)[entry.color := entry.index]
      ensures |Used(entries[..])| == |Used(old(entries[..]))| + 1
    {
      hide ValidTable, Holds, Used, Probe, Passed;
      ghost var m := entries[..];
      PutValid(m, hash, table, entry.color, k, entry.index);
      entries[bucket] := entry;
      assert entries[..] == m[bucket := entry];
      table := table[entry.color := entry.index];
    }

    /** -1 if there is no room for a new colour. */
    method GetIndexForColor(color: nat) returns (r: int)
      requires Valid() && color < EMPTY_BUCKET
      modifies this`size, this`index, this`table, entries
      ensures Valid()
      ensures color in old(table) ==> table == old(table) && r == table[color]
      ensures color !in old(table) && old(size) == limit ==> r == -1 && table == old(table)
      ensures color !in old(table) && old(size) != limit ==> r == old(index) && table == old(table)[color := r]
      ensures size == old(size) + |table| - |old(table)|
    {
      hide ValidTable, Holds, Used, Probe, Passed, Indexed;
      ghost var m := entries[..];
      ghost var e := SomeEmpty(m);
      var bucket := hash(color) % MAP_SIZE;
      ghost var k := 0;
      assert bucket == Probe(hash, color, 0) && Passed(m, hash, color, 0) by { FirstProbe(m, hash, color); }
      while entries[bucket].color != color
        invariant table == old(table) && size == old(size) && index == old(index)
        invariant entries[..] == m && bucket == Probe(hash, color, k) < MAP_SIZE && Passed(m, hash, color, k)
        decreases Steps(hash, color, e) - k
      {
        ProbeStops(m, hash, color, k, e);
        if entries[bucket].color == EMPTY_BUCKET {
          ProbeEnds(m, hash, table, color, k);
          if size == limit {
            return -1;
          }
          NewColor(bucket, color, k);
          return entries[bucket].index;
        }
        PassOn(m, hash, color, k);
        bucket := (bucket + 1) % MAP_SIZE;
        k := k + 1;
      }
      ProbeEnds(m, hash, table, color, k);
      return entries[bucket].index;
    }

    /** Gives a colour the next index, in the empty bucket where its probing ended. */
    method NewColor(bucket: nat, color: nat, ghost k: nat)
      requires Valid() && color < EMPTY_BUCKET && size < limit
      requires Passed(entries[..], hash, color, k) && bucket == Probe(hash, color, k) && k < MAP_SIZE
      requires bucket < MAP_SIZE && Empty(entries[..], bucket)
      modifies this`size, this`index, this`table, entries
      ensures Valid() && color !in old(table) && table == old(table)[color := old(index)]
      ensures entries[bucket].index == old(index) && size == old(size) + 1
    {
      hide ValidTable, Holds, Used, Probe, Passed, Indexed;
      Put(bucket, MapEntry(color, index), k);
      NewIndex(old(table), reserve, limit - reserved, limit, index, color);
      index := index + 1;
      size := size + 1;
    }

    /** Puts the reserve palette at the end of the palette; of equal colours the first keeps its slot. */
    method AddReservePalette(palette: seq<nat>, paletteSize: nat)
      requires Valid() && table == map[] && reserve == map[] && size == 0
      requires Clamped(paletteSize) <= |palette| && Clamped(paletteSize) <= limit
      modifies this`size, this`table, this`reserve, this`reserved, entries
      ensures Valid() && size == reserved == Clamped(paletteSize)
      ensures table == reserve == Reserve(palette, reserved, limit - reserved)
    {
      hide ValidTable, Holds, Used, Probe, Passed, Indexed, Reserve;
      var n := if paletteSize > MAX_SIZE then MAX_SIZE else paletteSize;
      var offset := limit - n;
      IndexedNone(palette, offset, limit);
      for i := 0 to n
        invariant ValidTable(entries[..], hash) && Holds(entries[..], table) && |Used(entries[..])| <= i
        invariant table == Reserve(palette, i, offset) && index == 0 && size == 0
        invariant Indexed(table, table, offset, limit, 0)
      {
        PutReserved(palette[i], offset + i);
        ReserveIndexed(palette, i, offset, limit);
      }
      size := size + n;
      reserve, reserved := table, n;
    }

    method PutReserved(color: nat, slot: nat)
      requires entries.Length == MAP_SIZE && ValidTable(entries[..], hash) && Holds(entries[..], table)
      requires |Used(entries[..])| < MAP_SIZE
      modifies this`table, entries
      ensures ValidTable(entries[..], hash) && Holds(entries[..], table)
      ensures |Used(entries[..])| <= |Used(old(entries[..]))| + 1
      ensures table == if color == EMPTY_BUCKET || color in old(table) then old(table) else old(table)[color := slot]
    {
      hide ValidTable, Holds, Used, Probe, Passed;
      ghost var m := entries[..];
      ghost var e := SomeEmpty(m);
      var bucket := hash(color) % MAP_SIZE;
      ghost var k := 0;
      FirstProbe(m, hash, color);
      while entries[bucket].color != EMPTY_BUCKET && entries[bucket].color != color
        invariant table == old(table) && entries[..] == m
        invariant bucket == Probe(hash, color, k) < MAP_SIZE && Passed(m, hash, color, k)
        decreases Steps(hash, color, e) - k
      {
        ProbeStops(m, hash, color, k, e);
        PassOn(m, hash, color, k);
        bucket := (bucket + 1) % MAP_SIZE;
        k := k + 1;
      }
      ProbeStops(m, hash, color, k, e);
      if color != EMPTY_BUCKET {
        ProbeEnds(m, hash, table, color, k);
      }
      if entries[bucket].color != color {
        Put(bucket, MapEntry(color, slot), k);
      }
    }

    /** Writes the colours to their places in the palette. */
    method WritePalette(palette: array<nat>)
      requires Valid() && palette.Length >= MAX_SIZE
      modifies palette
      ensures forall c :: c in table ==> table[c] < palette.Length && palette[table[c]] == c
      ensures forall j :: 0 <= j < palette.Length && j !in table.Values ==> palette[j] == old(palette[j])
    {
      ghost var m := entries[..];
      EntriesApart(m, table, reserve, limit - reserved, limit, index);
      hide ValidTable, Used, Holds, Indexed, Written;
      ghost var p0 := palette[..];
      assert Written(m, p0, p0, table.Values, 0) by { WrittenNone(m, p0, table.Values); }
      for i := 0 to MAP_SIZE
        invariant Written(m, p0, palette[..], table.Values, i)
      {
        assert !Empty(m, i) ==> m[i].index == table[m[i].color];
        WriteOne(m, p0, palette[..], table.Values, i);
        if entries[i].color != EMPTY_BUCKET {
          ghost var p := palette[..];
          palette[entries[i].index] := entries[i].color;
          assert palette[..] == p[m[i].index := m[i].color];
        }
      }
      WrittenAll(m, p0, palette[..], table);
    }

    // ---- The image ----

    /** Is this a colour looked up before? */
    ghost predicate LastOk(lastColor: nat, lastIndex: int)
      reads this`table
    {
      lastColor == EMPTY_BUCKET || (lastColor in table && table[lastColor] == lastIndex)
    }

    /** The index for a pixel: that of the pixel before if the colour is the same. */
    method IndexFor(color: nat, lastColor: nat, lastIndex: int) returns (i: int)
      requires Valid() && color < EMPTY_BUCKET && LastOk(lastColor, lastIndex)
      modifies this`size, this`index, this`table, entries
      ensures Valid() && Grown(old(table), table)
      ensures i == -1 ==> color !in table && table == old(table) && size == limit
      ensures i != -1 ==> 0 <= i < limit && color in table && i == table[color] && table.Keys == old(table).Keys + {color}
      ensures size == old(size) + |table| - |old(table)|
    {
      hide Valid;
      if color != lastColor {
        i := GetIndexForColor(color);
      } else {
        i := lastIndex;
      }
      if color in table {
        SlotBelow(color);
      }
    }

    lemma LastIs(color: nat, i: int)
      requires color in table && table[color] == i
      ensures LastOk(color, i)
    {
    }

    lemma SlotBelow(color: nat)
      requires Valid() && color in table
      ensures table[color] < limit <= MAX_SIZE
    {
    }

    /** The table has the reserved colours, and those of the first y lines and of x pixels more. */
    ghost predicate Seen(image: Image, y: nat, x: nat)
      requires ValidImage(image) && y < image.height && x <= image.width
      reads this`table, this`reserve
    {
      table.Keys == reserve.Keys + Colors(image, y) + LineColors(image, y, x)
    }

    /** Looks a pixel up and stores its index. */
    method QuantizePixel(image: Image, y: nat, x: nat, color: nat, dst: array<byte>, dstLine: nat, last: (nat, int))
        returns (ok: bool, last': (nat, int))
      requires Valid() && ValidImage(image) && y < image.height && x < image.width && dstLine + x < dst.Length
      requires color == Pixel(image, y, x) < EMPTY_BUCKET && LastOk(last.0, last.1)
      requires Seen(image, y, x)
      requires LineDone(image, y, x, dst[..], dstLine, table)
      modifies this`size, this`index, this`table, entries, dst
      ensures Valid() && Grown(old(table), table) && dst[..dstLine] == old(dst[..dstLine])
      ensures ok ==> LastOk(last'.0, last'.1) && Seen(image, y, x + 1)
      ensures ok ==> LineDone(image, y, x + 1, dst[..], dstLine, table)
      ensures !ok ==> size == limit && table.Keys < reserve.Keys + Palette(image)
    {
      hide Valid, ValidImage, Pixel, Palette, LineDone, Grown, Colors, LineColors, LastOk;
      ghost var d := dst[..];
      var i := IndexFor(color, last.0, last.1);
      if i == -1 {
        OneTooMany(image, y, x, table, reserve);
        return false, last;
      }
      SlotBelow(color);
      SeenNext(image, y, x, old(table), table, reserve);
      dst[dstLine + x] := i;
      assert dst[..] == d[dstLine + x := i];
      LineStep(image, y, x, d, dstLine, old(table), table, i);
      LastIs(color, i);
      return true, (color, i);
    }

    /** The first x pixels of line y are done, and the next one is at srcLine; t and kept are the table and the other
        lines from before. */
    ghost predicate Reading(image: Image, y: nat, x: nat, dst: seq<byte>, srcLine: nat, dstLine: nat, last: (nat, int),
        t: map<nat, nat>, kept: seq<byte>)
      requires ValidImage(image) && y < image.height && x <= image.width && dstLine <= |dst|
      reads this, entries
    {
      && Valid() && Grown(t, table) && LastOk(last.0, last.1) && srcLine == PixelAt(image, y, x)
      && Seen(image, y, x) && LineDone(image, y, x, dst, dstLine, table) && dst[..dstLine] == kept
    }

    /** The first n pixels of line y, reading each with the byte behind it. */
    method QuantizeLine(image: Image, y: nat, n: nat, dst: array<byte>, dstLine: nat, last: (nat, int))
        returns (ok: bool, last': (nat, int))
      requires Valid() && ValidImage(image) && y < image.height && n <= image.width && dstLine + n <= dst.Length
      requires image.bpp == 24 && y + 1 == image.height ==> n < image.width
      requires LastOk(last.0, last.1) && Seen(image, y, 0)
      modifies this`size, this`index, this`table, entries, dst
      ensures Valid() && Grown(old(table), table) && dst[..dstLine] == old(dst[..dstLine])
      ensures ok ==> LastOk(last'.0, last'.1) && Seen(image, y, n)
      ensures ok ==> LineDone(image, y, n, dst[..], dstLine, table)
      ensures !ok ==> size == limit && table.Keys < reserve.Keys + Palette(image)
    {
      hide Valid, ValidImage, Pixel, Palette, LineDone, Seen, LastOk, Masked, PixelAt, Grown, Reading;
      last' := last;
      var srcLine: nat := y * image.pitch;
      ghost var t, kept := table, dst[..dstLine];
      ReadingStarts(image, y, dst[..], dstLine, last);
      assert srcLine == PixelAt(image, y, 0) by { LineStart(image, y); }
      for x := 0 to n
        invariant Reading(image, y, x, dst[..], srcLine, dstLine, last', t, kept)
      {
        ok, last' := ReadPixel(image, y, x, dst, srcLine, dstLine, last', t, kept);
        if !ok {
          return;
        }
        srcLine := srcLine + image.bpp / 8;
      }
      ReadingEnds(image, y, n, dst[..], srcLine, dstLine, last', t, kept);
      return true, last';
    }

    lemma ReadingStarts(image: Image, y: nat, dst: seq<byte>, dstLine: nat, last: (nat, int))
      requires Valid() && ValidImage(image) && y < image.height && dstLine <= |dst|
      requires LastOk(last.0, last.1) && Seen(image, y, 0)
      ensures Reading(image, y, 0, dst, PixelAt(image, y, 0), dstLine, last, table, dst[..dstLine])
    {
      hide Valid, Seen, LastOk;
      LineStarts(image, y, dst, dstLine, table);
    }

    lemma ReadingEnds(image: Image, y: nat, x: nat, dst: seq<byte>, srcLine: nat, dstLine: nat, last: (nat, int),
        t: map<nat, nat>, kept: seq<byte>)
      requires ValidImage(image) && y < image.height && x <= image.width && dstLine <= |dst|
      requires Reading(image, y, x, dst, srcLine, dstLine, last, t, kept)
      ensures Valid() && Grown(t, table) && LastOk(last.0, last.1) && Seen(image, y, x) && dst[..dstLine] == kept
      ensures LineDone(image, y, x, dst, dstLine, table)
    {
    }

    /** Reads a pixel of four bytes and quantizes it. */
    method ReadPixel(image: Image, y: nat, x: nat, dst: array<byte>, srcLine: nat, dstLine: nat, last: (nat, int),
        ghost t: map<nat, nat>, ghost kept: seq<byte>) returns (ok: bool, last': (nat, int))
      requires ValidImage(image) && y < image.height && x < image.width && dstLine + x < dst.Length
      requires image.bpp == 24 && y + 1 == image.height ==> x + 1 < image.width
      requires Reading(image, y, x, dst[..], srcLine, dstLine, last, t, kept)
      modifies this`size, this`index, this`table, entries, dst
      ensures ok ==> Reading(image, y, x + 1, dst[..], srcLine + image.bpp / 8, dstLine, last', t, kept)
      ensures !ok ==> Valid() && Grown(t, table) && dst[..dstLine] == kept
      ensures !ok ==> size == limit && table.Keys < reserve.Keys + Palette(image)
    {
      hide Valid, ValidImage, Pixel, Palette, LineDone, Seen, LastOk, Masked, PixelAt, Grown;
      PixelRead(image, y, x);
      ok, last' := QuantizePixel(image, y, x, Masked(image.bits, srcLine), dst, dstLine, last);
      GrownOn(t, old(table), table);
    }

    /** Quantize: ok if and only if the colours of the image fit the palette beside the reserved ones. */
    method Quantize(image: Image, reserveSize: int, reservePalette: seq<nat>, dst: array<byte>, dstPitch: nat,
        palette: array<nat>) returns (ok: bool)
      requires Valid() && table == map[] && reserve == map[] && size == 0 && ValidImage(image)
      requires reserveSize > 0 && reservePalette != [] ==>
        Clamped(reserveSize) <= |reservePalette| && Clamped(reserveSize) <= limit
      requires image.width <= dstPitch && dst.Length == image.height * dstPitch && palette.Length >= MAX_SIZE
      modifies this`size, this`index, this`table, this`reserve, this`reserved, entries, dst, palette
      ensures reserved == if reserveSize > 0 && reservePalette != [] then Clamped(reserveSize) else 0
      ensures reserved <= limit && reserved <= |reservePalette| && reserve == Reserve(reservePalette, reserved, limit - reserved)
      ensures ok <==> reserved + |Palette(image) - reserve.Keys| <= limit
      ensures ok ==> forall y, x :: 0 <= y < image.height && 0 <= x < image.width ==>
        SameColor(image, y, x, dst[..], dstPitch, palette[..])
      ensures ok ==> forall c :: c in reserve || c in Palette(image) ==> c in table && table[c] < limit && palette[table[c]] == c
      ensures ok ==> forall c :: c in reserve ==> table[c] == reserve[c]
      ensures ok ==> forall c :: c in Palette(image) && c !in reserve ==> table[c] < limit - reserved
    {
      hide Valid, Palette, Done, Reserve, Colors, SameColor, ValidImage;
      AddReserve(reserveSize, reservePalette);
      ok := QuantizeLines(image, dst, dstPitch);
      FitCount(Palette(image), ok);
      if ok {
        Finish(image, dst, dstPitch, palette);
      }
    }

    method Finish(image: Image, dst: array<byte>, dstPitch: nat, palette: array<nat>)
      requires Valid() && ValidImage(image) && Done(image, image.height, dst[..], dstPitch, table)
      requires table.Keys == reserve.Keys + Palette(image) && palette.Length >= MAX_SIZE
      modifies palette
      ensures forall y, x :: 0 <= y < image.height && 0 <= x < image.width ==>
        SameColor(image, y, x, dst[..], dstPitch, palette[..])
      ensures forall c :: c in reserve || c in Palette(image) ==> c in table && table[c] < limit && palette[table[c]] == c
      ensures forall c :: c in reserve ==> table[c] == reserve[c]
      ensures forall c :: c in Palette(image) && c !in reserve ==> table[c] < limit - reserved
    {
      hide Valid, Palette, Done, SameColor, ValidImage;
      WritePalette(palette);
      Slots();
      Exact(image, dst[..], dstPitch, table, palette[..]);
    }

    method AddReserve(reserveSize: int, reservePalette: seq<nat>)
      requires Valid() && table == map[] && reserve == map[] && size == 0
      requires reserveSize > 0 && reservePalette != [] ==>
        Clamped(reserveSize) <= |reservePalette| && Clamped(reserveSize) <= limit
      modifies this`size, this`table, this`reserve, this`reserved, entries
      ensures Valid() && table == reserve
      ensures reserved == if reserveSize > 0 && reservePalette != [] then Clamped(reserveSize) else 0
      ensures reserved <= limit && reserved <= |reservePalette| && reserve == Reserve(reservePalette, reserved, limit - reserved)
    {
      hide ValidTable, Holds, Used, Indexed;
      if reserveSize > 0 && reservePalette != [] {
        AddReservePalette(reservePalette, reserveSize);
      }
    }

    /** The table is full with the colours seen, or has all of them. */
    lemma FitCount(colors: set<nat>, ok: bool)
      requires Valid()
      requires if ok then table.Keys == reserve.Keys + colors else size == limit && table.Keys < reserve.Keys + colors
      ensures ok <==> reserved + |colors - reserve.Keys| <= limit
    {
      assert |table| == |table.Keys| && |reserve| == |reserve.Keys|;
      var all, more := reserve.Keys + colors, colors - reserve.Keys;
      assert all == reserve.Keys + more;
      assert |all| == |reserve.Keys| + |more|;
      if !ok {
        Smaller(table.Keys, all);
      }
    }

    lemma Slots()
      requires Valid()
      ensures forall c :: c in table ==> table[c] < limit
      ensures forall c :: c in reserve ==> c in table && table[c] == reserve[c]
      ensures forall c :: c in table && c !in reserve ==> table[c] < limit - reserved
    {
    }

    /** The loops over the lines: a line of 24-bit pixels is read four bytes at a time, except for the very last pixel. */
    method QuantizeLines(image: Image, dst: array<byte>, dstPitch: nat) returns (ok: bool)
      requires Valid() && ValidImage(image) && table == reserve
      requires image.width <= dstPitch && dst.Length == image.height * dstPitch
      modifies this`size, this`index, this`table, entries, dst
      ensures Valid()
      ensures ok ==> Done(image, image.height, dst[..], dstPitch, table) && table.Keys == reserve.Keys + Palette(image)
      ensures !ok ==> size == limit && table.Keys < reserve.Keys + Palette(image)
    {
      hide Valid, Done, LineDone, Grown, Seen, LineColors, Colors;
      var last := (EMPTY_BUCKET, 0);
      if image.bpp == 24 {
        ok, last := QuantizeRows(image, image.height - 1, dst, dstPitch, last);
        if !ok {
          return;
        }
        var y := image.height - 1;
        LineInside(image, y, dstPitch);
        SeenStart(image, y);
        ghost var d, t := dst[..], table;
        ok, last := QuantizeLastRow(image, y, dst, y * dstPitch, last);
        if ok {
          DoneStep(image, y, d, dst[..], dstPitch, t, table);
          SeenEnd(image, y);
        }
      } else {
        ok, last := QuantizeRows(image, image.height, dst, dstPitch, last);
      }
    }

    /** The last line of a 24-bit image: its last pixel is read byte by byte. */
    method QuantizeLastRow(image: Image, y: nat, dst: array<byte>, dstLine: nat, last: (nat, int))
        returns (ok: bool, last': (nat, int))
      requires Valid() && ValidImage(image) && y + 1 == image.height && dstLine + image.width <= dst.Length
      requires LastOk(last.0, last.1) && Seen(image, y, 0)
      modifies this`size, this`index, this`table, entries, dst
      ensures Valid() && Grown(old(table), table) && dst[..dstLine] == old(dst[..dstLine])
      ensures ok ==> LastOk(last'.0, last'.1) && Seen(image, y, image.width)
      ensures ok ==> LineDone(image, y, image.width, dst[..], dstLine, table)
      ensures !ok ==> size == limit && table.Keys < reserve.Keys + Palette(image)
    {
      hide Valid, LineDone, Grown, LastOk, Palette, Seen, ValidImage;
      var n := LastPixel(image);
      ok, last' := QuantizeLine(image, y, n, dst, dstLine, last);
      if !ok {
        return;
      }
      PixelInside(image, y, n);
      ghost var before := table;
      var color := Color(image.bits, PixelAt(image, y, n));
      ok, last' := QuantizePixel(image, y, n, color, dst, dstLine, last');
      GrownOn(old(table), before, table);
    }

    function LastPixel(image: Image): (n: nat)
      requires ValidImage(image)
      ensures n + 1 == image.width
    {
      image.width - 1
    }

    /** The table has the reserved colours and those of the first y lines. */
    ghost predicate SeenLines(image: Image, y: nat)
      requires ValidImage(image) && y <= image.height
      reads this`table, this`reserve
    {
      table.Keys == reserve.Keys + Colors(image, y)
    }

    lemma SeenStart(image: Image, y: nat)
      requires ValidImage(image) && y < image.height && SeenLines(image, y)
      ensures Seen(image, y, 0)
    {
    }

    lemma SeenEnd(image: Image, y: nat)
      requires ValidImage(image) && y < image.height && Seen(image, y, image.width)
      ensures SeenLines(image, y + 1)
    {
    }

    lemma RowsStart(image: Image, d: seq<byte>, dstPitch: nat)
      requires ValidImage(image) && table == reserve
      ensures Done(image, 0, d, dstPitch, table) && SeenLines(image, 0)
    {
    }

    /** The first n lines. */
    method QuantizeRows(image: Image, n: nat, dst: array<byte>, dstPitch: nat, last: (nat, int))
        returns (ok: bool, last': (nat, int))
      requires Valid() && ValidImage(image) && table == reserve && LastOk(last.0, last.1)
      requires image.width <= dstPitch && dst.Length == image.height * dstPitch
      requires n == if image.bpp == 24 then image.height - 1 else image.height
      modifies this`size, this`index, this`table, entries, dst
      ensures Valid()
      ensures ok ==> LastOk(last'.0, last'.1) && Done(image, n, dst[..], dstPitch, table)
      ensures ok ==> SeenLines(image, n)
      ensures !ok ==> size == limit && table.Keys < reserve.Keys + Palette(image)
    {
      hide Valid, Done, LineDone, Grown, LastOk, Palette, Seen, SeenLines, ValidImage;
      RowsStart(image, dst[..], dstPitch);
      last' := last;
      for y := 0 to n
        invariant Valid() && LastOk(last'.0, last'.1) && Done(image, y, dst[..], dstPitch, table)
        invariant SeenLines(image, y)
      {
        ok, last' := QuantizeRow(image, y, dst, dstPitch, last');
        if !ok {
          return;
        }
      }
      return true, last';
    }

    method QuantizeRow(image: Image, y: nat, dst: array<byte>, dstPitch: nat, last: (nat, int))
        returns (ok: bool, last': (nat, int))
      requires Valid() && ValidImage(image) && y < image.height && (image.bpp == 24 ==> y < image.height - 1)
      requires image.width <= dstPitch && dst.Length == image.height * dstPitch
      requires LastOk(last.0, last.1) && Done(image, y, dst[..], dstPitch, table) && SeenLines(image, y)
      modifies this`size, this`index, this`table, entries, dst
      ensures Valid()
      ensures ok ==> LastOk(last'.0, last'.1) && Done(image, y + 1, dst[..], dstPitch, table) && SeenLines(image, y + 1)
      ensures !ok ==> size == limit && table.Keys < reserve.Keys + Palette(image)
    {
      hide Valid, Done, LineDone, Grown, LastOk, Palette, Seen, SeenLines, ValidImage;
      LineInside(image, y, dstPitch);
      ghost var d, t := dst[..], table;
      SeenStart(image, y);
      ok, last' := QuantizeLine(image, y, image.width, dst, y * dstPitch, last);
      if ok {
        DoneStep(image, y, d, dst[..], dstPitch, t, table);
        SeenEnd(image, y);
      }
    }
  }

  lemma Smaller(a: set<nat>, b: set<nat>)
    requires a < b
    ensures |a| < |b|
  {
    assert b == a + (b - a);
    assert |b| == |a| + |b - a|;
    var x :| x in b - a;
  }

  lemma LineInside(image: Image, y: nat, dstPitch: nat)
    requires y < image.height && image.width <= dstPitch
    ensures y * dstPitch + image.width <= y * dstPitch + dstPitch == (y + 1) * dstPitch <= image.height * dstPitch
  {
    MulMono(y + 1, image.height, dstPitch);
    MulDistributes(y, 1, dstPitch);
  }

  /** The first n lines of the image have their indices in the output. */
  ghost predicate Done(image: Image, n: nat, d: seq<byte>, dstPitch: nat, table: map<nat, nat>)
  {
    && ValidImage(image) && n <= image.height && n * dstPitch <= |d|
    && forall y :: 0 <= y < n ==> LineDone(image, y, image.width, d, y * dstPitch, table)
  }

  lemma DoneStep(image: Image, y: nat, d: seq<byte>, d': seq<byte>, dstPitch: nat, before: map<nat, nat>, after: map<nat, nat>)
    requires Done(image, y, d, dstPitch, before) && Grown(before, after) && y < image.height && image.width <= dstPitch
    requires |d'| == |d| >= (y + 1) * dstPitch && y * dstPitch <= |d| && d'[..y * dstPitch] == d[..y * dstPitch]
    requires LineDone(image, y, image.width, d', y * dstPitch, after)
    ensures Done(image, y + 1, d', dstPitch, after)
  {
    forall i | 0 <= i < y + 1 ensures LineDone(image, i, image.width, d', i * dstPitch, after) {
      if i < y {
        assert LineDone(image, i, image.width, d, i * dstPitch, before);
        MulMono(i + 1, y, dstPitch);
        MulDistributes(i, 1, dstPitch);
        LineKept(image, i, d, d', i * dstPitch, y * dstPitch, before, after);
      }
    }
  }

  lemma LineKept(image: Image, y: nat, d: seq<byte>, d': seq<byte>, at: nat, n: nat, before: map<nat, nat>, after: map<nat, nat>)
    requires LineDone(image, y, image.width, d, at, before) && Grown(before, after)
    requires at + image.width <= n <= |d| == |d'| && d'[..n] == d[..n]
    ensures LineDone(image, y, image.width, d', at, after)
  {
    forall i | 0 <= i < n ensures d'[i] == d[i] {
      assert d'[..n][i] == d[..n][i];
    }
  }

  /** The palette has the colour of the pixel, byte for byte, at the index of the pixel. */
  ghost predicate SameColor(image: Image, y: nat, x: nat, d: seq<byte>, dstPitch: nat, palette: seq<nat>)
  {
    var at := y * dstPitch + x;
    at < |d| && d[at] < |palette| && HasBytes(image, y, x, palette[d[at]])
  }

  lemma Exact(image: Image, d: seq<byte>, dstPitch: nat, table: map<nat, nat>, palette: seq<nat>)
    requires Done(image, image.height, d, dstPitch, table)
    requires forall c :: c in table ==> table[c] < |palette| && palette[table[c]] == c
    ensures ValidImage(image)
    ensures forall y, x :: 0 <= y < image.height && 0 <= x < image.width ==> SameColor(image, y, x, d, dstPitch, palette)
  {
    forall y, x | 0 <= y < image.height && 0 <= x < image.width ensures SameColor(image, y, x, d, dstPitch, palette) {
      assert LineDone(image, y, image.width, d, y * dstPitch, table);
      assert Pixel(image, y, x) in table;
      BytesOfPixel(image, y, x, Pixel(image, y, x));
    }
  }

  lemma SeenNext(image: Image, y: nat, x: nat, before: map<nat, nat>, after: map<nat, nat>, reserve: map<nat, nat>)
    requires ValidImage(image) && y < image.height && x < image.width
    requires before.Keys == reserve.Keys + Colors(image, y) + LineColors(image, y, x)
    requires after.Keys == before.Keys + {Pixel(image, y, x)}
    ensures after.Keys == reserve.Keys + Colors(image, y) + LineColors(image, y, x + 1)
  {
  }

  lemma LineStart(image: Image, y: nat)
    ensures PixelAt(image, y, 0) == y * image.pitch
  {
  }

  /** The first n pixels of a line have their indices in the output. */
  ghost predicate LineDone(image: Image, y: nat, n: nat, d: seq<byte>, dstLine: nat, table: map<nat, nat>)
  {
    && ValidImage(image) && y < image.height && n <= image.width && dstLine + n <= |d|
    && forall x :: 0 <= x < n ==> Pixel(image, y, x) in table && d[dstLine + x] == table[Pixel(image, y, x)]
  }

  lemma LineStarts(image: Image, y: nat, d: seq<byte>, dstLine: nat, table: map<nat, nat>)
    requires ValidImage(image) && y < image.height && dstLine <= |d|
    ensures LineDone(image, y, 0, d, dstLine, table) && LineColors(image, y, 0) == {}
  {
  }

  lemma LineStep(image: Image, y: nat, x: nat, d: seq<byte>, dstLine: nat, before: map<nat, nat>, after: map<nat, nat>, i: byte)
    requires LineDone(image, y, x, d, dstLine, before) && Grown(before, after) && x < image.width && dstLine + x < |d|
    requires Pixel(image, y, x) in after && after[Pixel(image, y, x)] == i
    ensures LineDone(image, y, x + 1, d[dstLine + x := i], dstLine, after)
  {
  }

  lemma GrownOn(a: map<nat, nat>, b: map<nat, nat>, c: map<nat, nat>)
    requires Grown(a, b) && Grown(b, c)
    ensures Grown(a, c)
  {
  }

  ghost predicate Grown(before: map<nat, nat>, after: map<nat, nat>)
  {
    forall c :: c in before ==> c in after && after[c] == before[c]
  }

  lemma PixelRead(image: Image, y: nat, x: nat)
    requires ValidImage(image) && y < image.height && x < image.width
    requires image.bpp == 24 && y + 1 == image.height ==> x + 1 < image.width
    ensures PixelAt(image, y, x) + 4 <= |image.bits| && Masked(image.bits, PixelAt(image, y, x)) == Pixel(image, y, x)
    ensures PixelAt(image, y, x + 1) == PixelAt(image, y, x) + image.bpp / 8 && Pixel(image, y, x) < EMPTY_BUCKET
  {
    PixelInside(image, y, x);
    MaskedIsColor(image.bits, PixelAt(image, y, x));
    MulDistributes(x, 1, image.bpp / 8);
  }

  lemma OneTooMany(image: Image, y: nat, x: nat, table: map<nat, nat>, reserve: map<nat, nat>)
    requires ValidImage(image) && y < image.height && x < image.width
    requires table.Keys == reserve.Keys + Colors(image, y) + LineColors(image, y, x) && Pixel(image, y, x) !in table
    ensures table.Keys < reserve.Keys + Palette(image)
  {
    ColorsWithin(image, y, x + 1);
    assert Pixel(image, y, x) in LineColors(image, y, x + 1);
  }

  /** The entries of the first n buckets are in the palette p, and all slots that no colour has are as in p0. */
  ghost predicate Written(m: seq<MapEntry>, p0: seq<nat>, p: seq<nat>, slots: set<nat>, n: nat)
  {
    && n <= |m| && |p| == |p0|
    && (forall b :: 0 <= b < n && !Empty(m, b) ==> m[b].index < |p| && p[m[b].index] == m[b].color)
    && forall j :: 0 <= j < |p| && j !in slots ==> p[j] == p0[j]
  }

  lemma WrittenNone(m: seq<MapEntry>, p0: seq<nat>, slots: set<nat>)
    ensures Written(m, p0, p0, slots, 0)
  {
  }

  lemma WriteOne(m: seq<MapEntry>, p0: seq<nat>, p: seq<nat>, slots: set<nat>, i: nat)
    requires Written(m, p0, p, slots, i) && i < |m| && (!Empty(m, i) ==> m[i].index in slots && m[i].index < |p|)
    requires forall b :: 0 <= b < i && !Empty(m, b) && !Empty(m, i) && m[b].index == m[i].index ==> m[b].color == m[i].color
    ensures Written(m, p0, if Empty(m, i) then p else p[m[i].index := m[i].color], slots, i + 1)
  {
  }

  lemma WrittenAll(m: seq<MapEntry>, p0: seq<nat>, p: seq<nat>, table: map<nat, nat>)
    requires Written(m, p0, p, table.Values, |m|) && forall c :: c in table ==> InTable(m, c)
    requires forall b :: 0 <= b < |m| && !Empty(m, b) ==> m[b].color in table && table[m[b].color] == m[b].index
    ensures forall c :: c in table ==> table[c] < |p| && p[table[c]] == c
    ensures forall j :: 0 <= j < |p| && j !in table.Values ==> p[j] == p0[j]
  {
    forall c | c in table ensures table[c] < |p| && p[table[c]] == c {
      assert InTable(m, c);
    }
  }

  lemma EntriesApart(m: seq<MapEntry>, table: map<nat, nat>, reserve: map<nat, nat>, low: int, limit: nat, index: nat)
    requires Holds(m, table) && Indexed(table, reserve, low, limit, index) && low <= limit
    ensures forall c :: c in table ==> InTable(m, c)
    ensures forall b :: 0 <= b < |m| && !Empty(m, b) ==>
      m[b].color in table && table[m[b].color] == m[b].index && m[b].index < limit
    ensures forall b, d :: 0 <= b < |m| && 0 <= d < |m| && !Empty(m, b) && !Empty(m, d) && m[b].index == m[d].index ==>
      m[b].color == m[d].color
  {
  }

  /** The first n colours of a reserve palette, in the slots from `offset` on. */
  function Reserve(palette: seq<nat>, n: nat, offset: nat): map<nat, nat>
    requires n <= |palette|
  {
    if n == 0 then map[]
    else
      var before, color := Reserve(palette, n - 1, offset), palette[n - 1];
      if color == EMPTY_BUCKET || color in before then before else before[color := offset + n - 1]
  }

  /** A reserved colour has the slot of its first occurrence. */
  lemma {:induction false} ReserveIs(palette: seq<nat>, n: nat, offset: nat, c: nat)
    requires n <= |palette|
    ensures var r := Reserve(palette, n, offset);
      && (c in r <==> c != 0xFFFF_FFFF && c in palette[..n])
      && (c in r ==> offset <= r[c] < offset + n && palette[r[c] - offset] == c && c !in palette[..r[c] - offset])
  {
    if n > 0 {
      ReserveIs(palette, n - 1, offset, c);
      assert palette[..n] == palette[..n - 1] + [palette[n - 1]];
    }
  }

  lemma IndexedNone(palette: seq<nat>, offset: nat, limit: nat)
    ensures Indexed(map[], map[], offset, limit, 0) && Reserve(palette, 0, offset) == map[]
  {
  }

  lemma ReserveIndexed(palette: seq<nat>, i: nat, offset: nat, limit: nat)
    requires i < |palette| && offset + i < limit
    requires var r := Reserve(palette, i, offset); Indexed(r, r, offset, limit, 0)
    ensures var r := Reserve(palette, i + 1, offset); Indexed(r, r, offset, limit, 0)
    ensures var r, c := Reserve(palette, i, offset), palette[i];
      Reserve(palette, i + 1, offset) == if c == EMPTY_BUCKET || c in r then r else r[c := offset + i]
  {
    var r, r' := Reserve(palette, i, offset), Reserve(palette, i + 1, offset);
    forall c | c in r ensures r[c] < offset + i {
      ReserveIs(palette, i, offset, c);
    }
  }

  lemma FirstProbe(m: seq<MapEntry>, hash: Hash, color: nat)
    requires |m| == MAP_SIZE
    ensures Probe(hash, color, 0) == hash(color) % MAP_SIZE && Passed(m, hash, color, 0)
  {
  }

  lemma PassOn(m: seq<MapEntry>, hash: Hash, color: nat, k: nat)
    requires |m| == MAP_SIZE && Passed(m, hash, color, k)
    requires !Empty(m, Probe(hash, color, k)) && m[Probe(hash, color, k)].color != color
    ensures Passed(m, hash, color, k + 1) && Probe(hash, color, k + 1) == (Probe(hash, color, k) + 1) % MAP_SIZE
  {
  }

  /** Reserved colours have their slots from `low` on, the others have the indices below `index`, and no two colours
      share one. */
  ghost predicate Indexed(table: map<nat, nat>, reserve: map<nat, nat>, low: int, limit: nat, index: nat)
  {
    && (forall c :: c in reserve ==> c in table && table[c] == reserve[c] && low <= reserve[c] < limit)
    && (forall c :: c in table && c !in reserve ==> table[c] < index)
    && (forall c, d :: c in table && d in table && c != d ==> table[c] != table[d])
    && |table| == |reserve| + index && index <= low
  }

  lemma NewIndex(table: map<nat, nat>, reserve: map<nat, nat>, low: int, limit: nat, index: nat, color: nat)
    requires Indexed(table, reserve, low, limit, index) && color !in table && index < low <= limit
    ensures Indexed(table[color := index], reserve, low, limit, index + 1)
    ensures |table[color := index]| == |table| + 1
  {
    OneMore(table, color, index);
  }

  lemma OneMore(table: map<nat, nat>, color: nat, index: nat)
    requires color !in table
    ensures |table[color := index]| == |table| + 1
  {
    var table' := table[color := index];
    assert table'.Keys == table.Keys + {color};
    assert |table'| == |table'.Keys| && |table| == |table.Keys|;
  }
}
