/** Saving run-length TARGA packets: saveRLE of PluginTARGA.cpp. */
module TargaSave {
  import opened Numbers
  import opened LineBuffer
  import opened TargaPackets

  ghost predicate ValidLine(px: seq<Pixel>, p: nat)
  {
    p > 0 && forall i :: 0 <= i < |px| ==> |px[i]| == p
  }

  /** The state before pixel x: packets ks stand for the first i pixels, the packet that is being made for those from i
      to x. */
  ghost predicate Making(px: seq<Pixel>, p: nat, ks: seq<Packet>, i: nat, x: nat, packet: seq<Pixel>, count: nat, hasRle: bool)
  {
    && ValidLine(px, p) && i <= x < |px| && count == x - i < MAX_PACKET_SIZE
    && Greedy(ks, p) && Expand(ks) == px[..i]
    && (ks != [] ==> MayFollow(ks[|ks| - 1], px[i], hasRle))
    && if hasRle then count > 0 && packet == [px[i]] && forall j :: i <= j <= x ==> px[j] == px[i]
       else packet == px[i..x] && forall j :: i < j <= x ==> px[j - 1] != px[j]
  }

  /** The packet that takes the pixels before x. */
  function Made(packet: seq<Pixel>, count: nat, hasRle: bool): Packet
    requires hasRle ==> |packet| == 1
  {
    if hasRle then Run(packet[0], count) else Raw(packet)
  }

  /** The packet with the pixels from i to x can be flushed. */
  lemma Flushed(px: seq<Pixel>, p: nat, ks: seq<Packet>, i: nat, x: nat, packet: seq<Pixel>, count: nat, hasRle: bool)
    requires ValidLine(px, p) && i < x <= |px| && count == x - i <= MAX_PACKET_SIZE && Greedy(ks, p) && Expand(ks) == px[..i]
    requires ks != [] ==> MayFollow(ks[|ks| - 1], px[i], hasRle)
    requires if hasRle then count > 1 && packet == [px[i]] && forall j :: i <= j < x ==> px[j] == px[i]
      else packet == px[i..x] && forall j :: i < j < x ==> px[j - 1] != px[j]
    ensures var k := Made(packet, count, hasRle);
      && ValidPacket(k, p) && Greedy(ks + [k], p) && Expand(ks + [k]) == px[..x]
      && AllBytes(ks + [k], p) == AllBytes(ks, p) + Bytes(k)
      && |AllBytes(ks + [k], p)| <= LineRoom(|px|, p)
  {
    hide Expand, Pixels, Greedy, GreedyPacket, ValidPackets, AllBytes, MayFollow, Bytes, LineRoom, Made, First;
    PacketIs(px, p, i, x, packet, count, hasRle);
    var k := Made(packet, count, hasRle);
    AppendPacket(ks, k, p);
    assert px[..x] == px[..i] + px[i..x];
    LineFits(ks + [k], p, |px|);
  }

  lemma PacketIs(px: seq<Pixel>, p: nat, i: nat, x: nat, packet: seq<Pixel>, count: nat, hasRle: bool)
    requires ValidLine(px, p) && i < x <= |px| && count == x - i <= MAX_PACKET_SIZE
    requires if hasRle then count > 1 && packet == [px[i]] && forall j :: i <= j < x ==> px[j] == px[i]
      else packet == px[i..x] && forall j :: i < j < x ==> px[j - 1] != px[j]
    ensures var k := Made(packet, count, hasRle);
      ValidPacket(k, p) && GreedyPacket(k) && Pixels(k) == px[i..x] && First(k) == px[i] && k.Run? == hasRle
  {
    if !hasRle {
      forall j | 0 < j < |packet| ensures packet[j - 1] != packet[j] {
        assert packet[j - 1] == px[i + j - 1] && packet[j] == px[i + j];
      }
    }
  }

  /** Writes a packet; nothing is left of it then. */
  method FlushPacket(line: array<byte>, dest: nat, packet: seq<Pixel>, packetCount: nat, hasRle: bool, ghost p: nat,
      ghost done: seq<byte>, ghost before: seq<byte>) returns (dest': nat)
    requires 0 < packetCount <= MAX_PACKET_SIZE && |packet| == if hasRle then 1 else packetCount
    requires dest == |done| && Written(line[..], done, before)
    requires dest + |Bytes(Made(packet, packetCount, hasRle))| <= line.Length
    modifies line
    ensures var k := Made(packet, packetCount, hasRle);
      Written(line[..], done + Bytes(k), before) && dest' == |done + Bytes(k)|
  {
    hide Written;
    var typeBit := if hasRle then 0x80 else 0;
    var rle: byte := packetCount - 1 + typeBit;
    var data := FlatOf(packet);
    Copy(line, dest, [rle], done, before);
    Copy(line, dest + 1, data, done + [rle], before);
    Regroup(done, [rle], data);
    return dest + 1 + |data|;
  }

  /** The bytes of the packet buffer. */
  method FlatOf(packet: seq<Pixel>) returns (data: seq<byte>)
    ensures data == Flat(packet)
    ensures |packet| == 1 ==> data == packet[0]
  {
    data := [];
    for i := 0 to |packet|
      invariant data == Flat(packet[..i])
    {
      assert packet[..i + 1][..i] == packet[..i];
      data := data + packet[i];
    }
    assert packet[..|packet|] == packet;
    if |packet| == 1 {
      assert packet[..0] == [];
    }
  }

  /** The packet with the pixels from i to x is written behind those before it. */
  method Flush(px: seq<Pixel>, p: nat, line: array<byte>, dest: nat, packet: seq<Pixel>, count: nat, hasRle: bool,
      ghost ks: seq<Packet>, ghost i: nat, ghost x: nat, ghost before: seq<byte>) returns (dest': nat, ghost ks': seq<Packet>)
    requires ValidLine(px, p) && i < x <= |px| && count == x - i <= MAX_PACKET_SIZE && Greedy(ks, p) && Expand(ks) == px[..i]
    requires ks != [] ==> MayFollow(ks[|ks| - 1], px[i], hasRle)
    requires if hasRle then count > 1 && packet == [px[i]] && forall j :: i <= j < x ==> px[j] == px[i]
      else packet == px[i..x] && forall j :: i < j < x ==> px[j - 1] != px[j]
    requires dest == |AllBytes(ks, p)| && Written(line[..], AllBytes(ks, p), before)
    requires line.Length == LineRoom(|px|, p)
    modifies line
    ensures ks' == ks + [Made(packet, count, hasRle)] && Greedy(ks', p) && Expand(ks') == px[..x]
    ensures dest' == |AllBytes(ks', p)| && Written(line[..], AllBytes(ks', p), before)
  {
    hide Written, Expand, AllBytes, GreedyPacket, MayFollow, LineRoom, Flat;
    Flushed(px, p, ks, i, x, packet, count, hasRle);
    ks' := ks + [Made(packet, count, hasRle)];
    dest' := FlushPacket(line, dest, packet, count, hasRle, p, AllBytes(ks, p), before);
  }

  // ---- The steps of the loop ----

  /** Nothing has been taken into a packet yet. */
  lemma Fresh(px: seq<Pixel>, p: nat, ks: seq<Packet>, x: nat)
    requires ValidLine(px, p) && x < |px| && Greedy(ks, p) && Expand(ks) == px[..x]
    requires ks != [] ==> MayFollow(ks[|ks| - 1], px[x], false)
    ensures Making(px, p, ks, x, x, [], 0, false)
  {
    hide Greedy, Expand, MayFollow;
  }

  lemma RawGoesOn(px: seq<Pixel>, p: nat, ks: seq<Packet>, i: nat, x: nat, packet: seq<Pixel>, count: nat)
    requires Making(px, p, ks, i, x, packet, count, false) && x + 1 < |px| && px[x] != px[x + 1]
    ensures count + 1 < MAX_PACKET_SIZE ==> Making(px, p, ks, i, x + 1, packet + [px[x]], count + 1, false)
    ensures packet + [px[x]] == px[i..x + 1] && forall j :: i < j < x + 1 ==> px[j - 1] != px[j]
    ensures count + 1 == MAX_PACKET_SIZE ==> MayFollow(Made(packet + [px[x]], count + 1, false), px[x + 1], false)
  {
  }

  lemma RunGoesOn(px: seq<Pixel>, p: nat, ks: seq<Packet>, i: nat, x: nat, packet: seq<Pixel>, count: nat)
    requires Making(px, p, ks, i, x, packet, count, true) && x + 1 < |px|
    ensures px[x] == px[x + 1] && count + 1 < MAX_PACKET_SIZE ==> Making(px, p, ks, i, x + 1, packet, count + 1, true)
    ensures px[x] != px[x + 1] || count + 1 == MAX_PACKET_SIZE ==> MayFollow(Made(packet, count + 1, true), px[x + 1], false)
  {
  }

  /** A run begins at x: what was taken raw has been flushed. */
  lemma RunBegins(px: seq<Pixel>, p: nat, ks: seq<Packet>, x: nat)
    requires ValidLine(px, p) && x + 1 < |px| && px[x] == px[x + 1] && Greedy(ks, p) && Expand(ks) == px[..x]
    requires ks != [] ==> MayFollow(ks[|ks| - 1], px[x], true)
    ensures Making(px, p, ks, x, x + 1, [px[x]], 1, true)
  {
    hide Greedy, Expand, MayFollow;
  }

  lemma RawEnds(px: seq<Pixel>, p: nat, ks: seq<Packet>, i: nat, x: nat, packet: seq<Pixel>, count: nat)
    requires Making(px, p, ks, i, x, packet, count, false)
    ensures count > 0 ==> MayFollow(Made(packet, count, false), px[x], true)
    ensures count == 0 && ks != [] ==> MayFollow(ks[|ks| - 1], px[x], true)
    ensures i == x <==> count == 0
  {
  }

  /** One line of n pixels of p bytes, into a buffer of n * p + ceil(n / 3) bytes. */
  method SaveLine(px: seq<Pixel>, p: nat, line: array<byte>) returns (length: nat, ghost ks: seq<Packet>)
    requires ValidLine(px, p) && px != [] && line.Length == LineRoom(|px|, p)
    modifies line
    ensures Greedy(ks, p) && Expand(ks) == px
    ensures length == |AllBytes(ks, p)| <= line.Length && line[..length] == AllBytes(ks, p)
  {
    hide Written, Expand, AllBytes, Making, GreedyPacket, MayFollow, ValidPackets;
    var packet: seq<Pixel> := [];
    var packetCount, hasRle, dest := 0, false, 0;
    ghost var before, i := line[..], 0;
    ks := [];
    Start(px, p, line[..]);
    var x := 0;
    while x < |px|
      invariant if x < |px| then Making(px, p, ks, i, x, packet, packetCount, hasRle) else x == |px| && Expand(ks) == px
      invariant Greedy(ks, p) && dest == |AllBytes(ks, p)| && Written(line[..], AllBytes(ks, p), before)
    {
      var current := px[x];
      if x + 1 == |px| {
        dest, ks := LastPixel(px, p, line, dest, packet, packetCount, hasRle, ks, i, x, before);
        x := x + 1;
        break;
      }
      if current == px[x + 1] {
        dest, packet, packetCount, hasRle, ks, i := EqualPixel(px, p, line, dest, packet, packetCount, hasRle, ks, i, x, before);
      } else {
        dest, packet, packetCount, hasRle, ks, i := OtherPixel(px, p, line, dest, packet, packetCount, hasRle, ks, i, x, before);
      }
      x := x + 1;
    }
    WrittenIs(line[..], AllBytes(ks, p), before);
    return dest, ks;
  }

  lemma Start(px: seq<Pixel>, p: nat, line: seq<byte>)
    requires ValidLine(px, p) && px != []
    ensures Making(px, p, [], 0, 0, [], 0, false) && Greedy([], p) && AllBytes([], p) == [] && Written(line, [], line)
  {
  }

  /** The last pixel of the line is taken into the packet, and that is flushed. */
  method LastPixel(px: seq<Pixel>, p: nat, line: array<byte>, dest: nat, packet: seq<Pixel>, packetCount: nat, hasRle: bool,
      ghost ks: seq<Packet>, ghost i: nat, x: nat, ghost before: seq<byte>) returns (dest': nat, ghost ks': seq<Packet>)
    requires Making(px, p, ks, i, x, packet, packetCount, hasRle) && x + 1 == |px|
    requires Greedy(ks, p) && dest == |AllBytes(ks, p)| && Written(line[..], AllBytes(ks, p), before)
    requires line.Length == LineRoom(|px|, p)
    modifies line
    ensures Greedy(ks', p) && Expand(ks') == px && dest' == |AllBytes(ks', p)| && Written(line[..], AllBytes(ks', p), before)
  {
    hide Written, Expand, AllBytes, GreedyPacket, MayFollow;
    assert px[..x + 1] == px;
    dest', ks' := Flush(px, p, line, dest, if hasRle then packet else packet + [px[x]], packetCount + 1, hasRle, ks, i, x + 1, before);
  }

  /** The pixel equals the next one: it is, or becomes, part of a run. */
  method EqualPixel(px: seq<Pixel>, p: nat, line: array<byte>, dest: nat, packet: seq<Pixel>, packetCount: nat, hasRle: bool,
      ghost ks: seq<Packet>, ghost i: nat, x: nat, ghost before: seq<byte>)
      returns (dest': nat, packet': seq<Pixel>, count: nat, rle: bool, ghost ks': seq<Packet>, ghost i': nat)
    requires Making(px, p, ks, i, x, packet, packetCount, hasRle) && x + 1 < |px| && px[x] == px[x + 1]
    requires Greedy(ks, p) && dest == |AllBytes(ks, p)| && Written(line[..], AllBytes(ks, p), before)
    requires line.Length == LineRoom(|px|, p)
    modifies line
    ensures Making(px, p, ks', i', x + 1, packet', count, rle)
    ensures Greedy(ks', p) && dest' == |AllBytes(ks', p)| && Written(line[..], AllBytes(ks', p), before)
  {
    hide Written, Expand, AllBytes, GreedyPacket, MayFollow;
    dest', packet', count, rle, ks', i' := dest, packet, packetCount, hasRle, ks, i;
    if !hasRle {
      RawEnds(px, p, ks, i, x, packet, packetCount);
      if packetCount > 0 {
        dest', ks' := Flush(px, p, line, dest, packet, packetCount, false, ks, i, x, before);
      }
      rle, packet', i' := true, [px[x]], x;
      RunBegins(px, p, ks', x);
      count := 1;
    } else {
      RunGoesOn(px, p, ks, i, x, packet, packetCount);
      count := count + 1;
      if count == MAX_PACKET_SIZE {
        dest', ks' := Flush(px, p, line, dest, packet, count, true, ks, i, x + 1, before);
        count, packet', rle, i' := 0, [], false, x + 1;
        Fresh(px, p, ks', x + 1);
      }
    }
  }

  /** The pixel differs from the next one: it ends a run, or goes to the raw packet. */
  method OtherPixel(px: seq<Pixel>, p: nat, line: array<byte>, dest: nat, packet: seq<Pixel>, packetCount: nat, hasRle: bool,
      ghost ks: seq<Packet>, ghost i: nat, x: nat, ghost before: seq<byte>)
      returns (dest': nat, packet': seq<Pixel>, count: nat, rle: bool, ghost ks': seq<Packet>, ghost i': nat)
    requires Making(px, p, ks, i, x, packet, packetCount, hasRle) && x + 1 < |px| && px[x] != px[x + 1]
    requires Greedy(ks, p) && dest == |AllBytes(ks, p)| && Written(line[..], AllBytes(ks, p), before)
    requires line.Length == LineRoom(|px|, p)
    modifies line
    ensures Making(px, p, ks', i', x + 1, packet', count, rle)
    ensures Greedy(ks', p) && dest' == |AllBytes(ks', p)| && Written(line[..], AllBytes(ks', p), before)
  {
    hide Written, Expand, AllBytes, GreedyPacket, MayFollow;
    dest', packet', count, rle, ks', i' := dest, packet, packetCount + 1, hasRle, ks, i;
    if hasRle {
      RunGoesOn(px, p, ks, i, x, packet, packetCount);
      dest', ks' := Flush(px, p, line, dest, packet, count, true, ks, i, x + 1, before);
      count, packet', rle, i' := 0, [], false, x + 1;
      Fresh(px, p, ks', x + 1);
    } else {
      RawGoesOn(px, p, ks, i, x, packet, packetCount);
      packet' := packet + [px[x]];
      if count == MAX_PACKET_SIZE {
        dest', ks' := Flush(px, p, line, dest, packet', count, false, ks, i, x + 1, before);
        count, packet', rle, i' := 0, [], false, x + 1;
        Fresh(px, p, ks', x + 1);
      }
    }
  }
}
