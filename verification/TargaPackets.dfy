/** The run-length packets of TARGA files: what they stand for, and how long the greedy packets of a line get. */
module TargaPackets {
  import opened Numbers

  type Pixel = seq<byte>

  const MAX_PACKET_SIZE := 128

  datatype Packet = Raw(pixels: seq<Pixel>) | Run(pixel: Pixel, count: nat)

  function Count(k: Packet): nat
  {
    if k.Raw? then |k.pixels| else k.count
  }

  function Copies(pixel: Pixel, n: nat): (r: seq<Pixel>)
    ensures |r| == n && forall i :: 0 <= i < n ==> r[i] == pixel
  {
    seq(n, i => pixel)
  }

  function Pixels(k: Packet): (r: seq<Pixel>)
    ensures |r| == Count(k)
  {
    if k.Raw? then k.pixels else Copies(k.pixel, k.count)
  }

  /** The pixels that packets stand for. */
  function Expand(ks: seq<Packet>): seq<Pixel>
  {
    if ks == [] then [] else Expand(ks[..|ks| - 1]) + Pixels(ks[|ks| - 1])
  }

  /** 1 to 128 pixels of p bytes each. */
  predicate ValidPacket(k: Packet, p: nat)
  {
    1 <= Count(k) <= MAX_PACKET_SIZE
    && if k.Raw? then forall i :: 0 <= i < |k.pixels| ==> |k.pixels[i]| == p else |k.pixel| == p
  }

  function Flat(pixels: seq<Pixel>): seq<byte>
  {
    if pixels == [] then [] else Flat(pixels[..|pixels| - 1]) + pixels[|pixels| - 1]
  }

  lemma {:induction false} FlatLength(pixels: seq<Pixel>, p: nat)
    requires forall i :: 0 <= i < |pixels| ==> |pixels[i]| == p
    ensures |Flat(pixels)| == |pixels| * p
  {
    if pixels != [] {
      FlatLength(pixels[..|pixels| - 1], p);
      MulDistributes(|pixels| - 1, 1, p);
    }
  }

  /** A packet in the file: its count less one and a type bit, and its pixels or the one that is repeated. */
  function Bytes(k: Packet): seq<byte>
    requires 1 <= Count(k) <= MAX_PACKET_SIZE
  {
    if k.Raw? then [|k.pixels| - 1] + Flat(k.pixels) else [0x80 + (k.count - 1)] + k.pixel
  }

  predicate ValidPackets(ks: seq<Packet>, p: nat)
  {
    forall i :: 0 <= i < |ks| ==> ValidPacket(ks[i], p)
  }

  function AllBytes(ks: seq<Packet>, p: nat): seq<byte>
    requires ValidPackets(ks, p)
  {
    if ks == [] then [] else AllBytes(ks[..|ks| - 1], p) + Bytes(ks[|ks| - 1])
  }

  // ---- Greedy packets ----

  function First(k: Packet): Pixel
    requires Count(k) > 0
  {
    if k.Raw? then k.pixels[0] else k.pixel
  }

  /** A raw packet has no equal neighbours, a run at least two pixels. */
  ghost predicate GreedyPacket(k: Packet)
  {
    if k.Run? then 2 <= k.count else Count(k) > 0 && forall i :: 0 < i < |k.pixels| ==> k.pixels[i - 1] != k.pixels[i]
  }

  /** What may follow a packet: a raw packet ends where a run begins, or full; a run ends where the pixel changes, or
      full. */
  predicate MayFollow(k: Packet, first: Pixel, isRun: bool)
  {
    if k.Raw? then (k.pixels != [] ==> k.pixels[|k.pixels| - 1] != first) && (Count(k) < MAX_PACKET_SIZE ==> isRun)
    else k.count < MAX_PACKET_SIZE ==> k.pixel != first
  }

  ghost predicate Greedy(ks: seq<Packet>, p: nat)
  {
    && ValidPackets(ks, p)
    && (forall i :: 0 <= i < |ks| ==> GreedyPacket(ks[i]))
    && forall i :: 0 < i < |ks| ==> MayFollow(ks[i - 1], First(ks[i]), ks[i].Run?)
  }

  /** ceil(n / 3) */
  function ExtraSpace(n: nat): nat
  {
    (n + 2) / 3
  }

  lemma BytesLength(k: Packet, p: nat)
    requires ValidPacket(k, p)
    ensures |Bytes(k)| == 1 + if k.Raw? then Count(k) * p else p
  {
    if k.Raw? {
      FlatLength(k.pixels, p);
    }
  }

  /** The bytes of packets beyond those of their pixels. */
  function Overhead(ks: seq<Packet>, p: nat): int
    requires ValidPackets(ks, p)
  {
    if ks == [] then 0
    else
      var k := ks[|ks| - 1];
      Overhead(ks[..|ks| - 1], p) + if k.Run? then 1 + p - k.count * p else 1
  }

  lemma {:induction false} OverheadIs(ks: seq<Packet>, p: nat, n: nat)
    requires ValidPackets(ks, p) && n == |Expand(ks)|
    ensures |AllBytes(ks, p)| == n * p + Overhead(ks, p)
  {
    if ks != [] {
      var rest, k := ks[..|ks| - 1], ks[|ks| - 1];
      OverheadIs(rest, p, |Expand(rest)|);
      BytesLength(k, p);
      assert |AllBytes(ks, p)| == |AllBytes(rest, p)| + |Bytes(k)| && n == |Expand(rest)| + Count(k);
      hide AllBytes, Expand, Bytes, ValidPackets;
      Sums(|AllBytes(rest, p)|, |Bytes(k)|, |Expand(rest)|, Count(k), p, Overhead(rest, p), n);
    }
  }

  lemma Sums(a: nat, b: nat, m: nat, c: nat, p: nat, o: int, n: nat)
    requires a == m * p + o && n == m + c
    ensures a + b == n * p + (o + b - c * p)
  {
    MulDistributes(m, c, p);
  }

  /** A greedy line of n pixels takes at most n * p + ceil(n / 3) bytes: a run costs no more than its pixels, and the
      header of a raw packet is paid for by three pixels, its own and those of the run behind it, or by being full. */
  lemma {:induction false} GreedyLength(ks: seq<Packet>, p: nat)
    requires Greedy(ks, p) && p > 0
    ensures Overhead(ks, p) <= ExtraSpace(|Expand(ks)|)
    ensures ks == [] || ks[|ks| - 1].Run? || Count(ks[|ks| - 1]) == MAX_PACKET_SIZE ==>
      Overhead(ks, p) <= |Expand(ks)| / 3
  {
    if ks != [] {
      LastPacket(ks, p);
      var rest, k := ks[..|ks| - 1], ks[|ks| - 1];
      GreedyLength(rest, p);
      hide GreedyPacket, MayFollow, ValidPackets;
      Amortised(Overhead(rest, p), |Expand(rest)|, Count(k), Overhead(ks, p) - Overhead(rest, p));
    }
  }

  /** The last of greedy packets: what it costs beyond its pixels, and what it may follow. */
  lemma LastPacket(ks: seq<Packet>, p: nat)
    requires Greedy(ks, p) && ks != [] && p > 0
    ensures var rest, k := ks[..|ks| - 1], ks[|ks| - 1];
      && Greedy(rest, p) && 1 <= Count(k) <= MAX_PACKET_SIZE
      && (k.Run? ==> k.count >= 2 && 1 + p - k.count * p <= 2 - k.count)
      && (rest != [] && k.Raw? ==> rest[|rest| - 1].Run? || Count(rest[|rest| - 1]) == MAX_PACKET_SIZE)
  {
    var k := ks[|ks| - 1];
    if k.Run? {
      MulDistributes(k.count - 1, 1, p);
      MulMono(1, p, k.count - 1);
    }
    if |ks| > 1 {
      assert MayFollow(ks[|ks| - 2], First(k), k.Run?);
    }
  }

  /** The sums behind GreedyLength: what is paid so far, for m pixels, and the next packet with c pixels. */
  lemma Amortised(paid: int, m: nat, c: nat, more: int)
    requires paid <= ExtraSpace(m)
    ensures c >= 2 && more <= 2 - c ==> paid + more <= (m + c) / 3
    ensures c >= 1 && more == 1 && paid <= m / 3 ==> paid + more <= ExtraSpace(m + c)
    ensures c == MAX_PACKET_SIZE && more == 1 ==> paid + more <= (m + c) / 3
  {
  }

  /** The length of the buffer for a line of n pixels. */
  function LineRoom(n: nat, p: nat): nat
  {
    n * p + ExtraSpace(n)
  }

  /** The line buffer is long enough. */
  lemma LineFits(ks: seq<Packet>, p: nat, n: nat)
    requires Greedy(ks, p) && p > 0 && |Expand(ks)| <= n
    ensures |AllBytes(ks, p)| <= LineRoom(n, p) == n * p + (n + 2) / 3
  {
    GreedyLength(ks, p);
    OverheadIs(ks, p, |Expand(ks)|);
    MulMono(|Expand(ks)|, n, p);
  }

  lemma AppendPacket(ks: seq<Packet>, k: Packet, p: nat)
    requires Greedy(ks, p) && ValidPacket(k, p) && GreedyPacket(k)
    requires ks != [] ==> MayFollow(ks[|ks| - 1], First(k), k.Run?)
    ensures Greedy(ks + [k], p) && AllBytes(ks + [k], p) == AllBytes(ks, p) + Bytes(k)
    ensures Expand(ks + [k]) == Expand(ks) + Pixels(k)
  {
    assert (ks + [k])[..|ks|] == ks;
  }
}
