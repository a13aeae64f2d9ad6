/** The decoder side of the coder (jdarith.c, section D.2 of ITU-T T.81), as functions on its state,
    and the proof that it recovers every decision of a segment written by the encoder. */
module ArithDecoder {
  import opened Numbers
  import opened AriTable
  import opened IntervalCoder
  import opened ArithRegisters
  import opened ArithFinish

  /** The registers of the decoder; `marker` is the marker code it has run into, 0 for none. */
  datatype Decoder = Decoder(tab: seq<int>, c: int, a: int, ct: int, input: seq<byte>, pos: nat, marker: byte,
                             bins: map<Bin, byte>)

  /** Past its end the source supplies end-of-image markers. */
  function ByteAt(input: seq<byte>, pos: nat): byte
  {
    if pos < |input| then input[pos] else if (pos - |input|) % 2 == 0 then 0xFF else 0xD9
  }

  /** The position of the first byte at or after `pos` that is not 0xFF. */
  function SkipOnes(input: seq<byte>, pos: nat): (p: nat)
    ensures pos <= p && ByteAt(input, p) != 0xFF
    decreases |input| - pos
  {
    if ByteAt(input, pos) != 0xFF then pos
    else if pos >= |input| then pos + 1
    else SkipOnes(input, pos + 1)
  }

  /** The next data byte: stuffed zeros are discarded, and after a marker there are only zeros. */
  function Fetch(d: Decoder): (byte, Decoder)
  {
    if d.marker != 0 then (0, d)
    else
      var data := ByteAt(d.input, d.pos);
      if data != 0xFF then (data, d.(pos := d.pos + 1))
      else
        var p := SkipOnes(d.input, d.pos + 1);
        var next := ByteAt(d.input, p);
        if next == 0 then (0xFF, d.(pos := p + 1))
        else (0, d.(pos := p + 1, marker := next))
  }

  /** What a (re)start of the pass leaves: a and c empty, two initial bytes still to be read. */
  function StartDecoder(tab: seq<int>, input: seq<byte>, pos: nat): Decoder
  {
    Decoder(tab, 0, 0, -16, input, pos, 0, map[])
  }

  predicate Ready(d: Decoder)
  {
    && SoundTable(d.tab) && LegalBins(d.bins)
    && ((d.a > 0 && d.ct >= 0) || (d.a == 0 && (d.ct == -16 || d.ct == -8)))
  }

  /** One round of the loop at the top of arith_decode. */
  function Shifted(d: Decoder): (r: Decoder)
    requires Ready(d) && d.a < 0x8000
    ensures Ready(r) && (r.a == 2 * d.a || r.a == 0x1_0000) && (d.a == 0 ==> r.a > 0 || r.ct > d.ct)
  {
    if d.ct > 0 then d.(ct := d.ct - 1, a := 2 * d.a)
    else
      var (data, f) := Fetch(d);
      var c := 0x100 * d.c + data;
      var ct := d.ct + 7;
      if ct >= 0 then f.(c := c, ct := ct, a := 2 * d.a)
      else f.(c := c, ct := ct + 1, a := if ct + 1 == 0 then 0x1_0000 else 2 * d.a)
  }

  function Refill(d: Decoder): (r: Decoder)
    requires Ready(d)
    ensures Ready(r) && r.a >= 0x8000
    decreases if d.a == 0 then 0x8000 - d.ct else 0x8000 - d.a
  {
    if d.a >= 0x8000 then d else Refill(Shifted(d))
  }

  /** Decoding and estimation (sections D.2.4 and D.2.5). */
  function Decide(d: Decoder, b: Bin): (bool, Decoder)
    requires Ready(d) && d.a >= 0x8000
  {
    var sv := BinState(d.bins, b);
    var p := d.tab[sv % 0x80];
    assert SoundEntry(p);
    var a := d.a - Qe(p);
    var temp := a * Pow2(d.ct);
    var moveLps, moveMps := d.bins[b := Moved(sv, NextLps(p))], d.bins[b := Moved(sv, NextMps(p))];
    if d.c >= temp then
      if a < Qe(p) then (Mps(sv), d.(c := d.c - temp, a := Qe(p), bins := moveMps))
      else (!Mps(sv), d.(c := d.c - temp, a := Qe(p), bins := moveLps))
    else if a < 0x8000 then
      if a < Qe(p) then (!Mps(sv), d.(a := a, bins := moveLps))
      else (Mps(sv), d.(a := a, bins := moveMps))
    else (Mps(sv), d.(a := a))
  }

  lemma DecideReady(d: Decoder, b: Bin)
    requires Ready(d) && d.a >= 0x8000
    ensures Ready(Decide(d, b).1)
  {
    EntryIsSound(d.tab, d.bins, b);
    hide LegalBins, SoundTable, Moved, BinState, NextLps, NextMps, Mps, Qe;
    var p := d.tab[BinState(d.bins, b) % 0x80];
    LegalMoved(d.bins, b, NextLps(p));
    LegalMoved(d.bins, b, NextMps(p));
  }

  /** arith_decode */
  function Decode(d: Decoder, b: Bin): (r: (bool, Decoder))
    requires Ready(d)
    ensures Ready(r.1)
  {
    DecideReady(Refill(d), b);
    Decide(Refill(d), b)
  }

  /** A data segment within an input: `ds` was coded into `data`, whose stuffed bytes begin at `start`. */
  datatype Segment = Segment(tab: seq<int>, ds: History, data: seq<byte>, start: nat)

  /** What follows the segment is a marker, or the end of the input. */
  ghost predicate Framed(s: Segment, input: seq<byte>)
  {
    var stop := s.start + |Stuff(s.data)|;
    && stop <= |input|
    && input[s.start..stop] == Stuff(s.data)
    && (stop < |input| ==> stop + 1 < |input| && input[stop] == 0xFF && input[stop + 1] != 0 && input[stop + 1] != 0xFF)
  }

  ghost predicate Written(s: Segment, input: seq<byte>)
  {
    SoundTable(s.tab) && Framed(s, input) && Represents(Run(s.tab, s.ds), s.data)
  }

  /** The data byte number m, and zeros after the last one. */
  function Digit(data: seq<byte>, m: nat): byte
  {
    if m < |data| then data[m] else 0
  }

  /** The value of the first m data bytes. */
  function Prefix(data: seq<byte>, m: nat): nat
  {
    if m == 0 then 0 else 0x100 * Prefix(data, m - 1) + Digit(data, m - 1)
  }

  lemma {:induction false} PrefixIsPadded(data: seq<byte>, m: nat)
    ensures m <= |data| ==> Prefix(data, m) == Be(data[..m])
    ensures |data| <= m ==> Prefix(data, m) == Padded(data, m)
  {
    if m == 0 {
      if |data| == 0 {
        assert Be(data) == 0;
      }
    } else {
      PrefixIsPadded(data, m - 1);
      if m <= |data| {
        assert data[..m] == data[..m - 1] + [data[m - 1]];
        BeSnoc(data[..m - 1], data[m - 1]);
        if m == |data| {
          assert data[..m] == data;
          assert Pow2(0) == 1;
        }
      } else {
        PaddedMore(data, m - 1);
      }
    }
  }

  /** Comparing a prefix with an integer is comparing the whole value with its multiple. */
  lemma {:induction false} PrefixLess(data: seq<byte>, m: nat, far: nat, x: nat)
    requires m <= far && |data| <= far
    ensures Prefix(data, m) < x <==> Padded(data, far) < x * Pow2(8 * (far - m))
    decreases far - m
  {
    if m == far {
      PrefixIsPadded(data, m);
      assert Pow2(0) == 1;
    } else {
      PrefixLess(data, m + 1, far, 0x100 * x);
      Pow2Values();
      Pow2Add(8, 8 * (far - m - 1));
      MulAssoc(x, 0x100, Pow2(8 * (far - m - 1)));
    }
  }

  /** The decoder has fetched m data bytes of the segment, or has run into the marker that follows it. */
  ghost predicate Fetched(d: Decoder, s: Segment, m: nat)
  {
    var stop := s.start + |Stuff(s.data)|;
    if m <= |s.data| then d.marker == 0 && d.pos == s.start + |Stuff(s.data[..m])|
    else d.marker != 0 && (stop < |d.input| ==> stop + 1 < |d.input| && d.marker == d.input[stop + 1] && d.pos == stop + 2)
  }

  /** next_marker of jdmarker.c: the next marker code at or after pos, and the position after it. */
  function NextMarker(input: seq<byte>, pos: nat): (byte, nat)
    decreases if pos < |input| then |input| - pos + 1 else (pos - |input|) % 2
  {
    if ByteAt(input, pos) != 0xFF then NextMarker(input, pos + 1)
    else
      var p := SkipOnes(input, pos + 1);
      if ByteAt(input, p) != 0 then (ByteAt(input, p), p + 1) else NextMarker(input, p + 1)
  }

  lemma {:induction false} StuffPrefix(data: seq<byte>, m: nat)
    requires m <= |data|
    ensures |Stuff(data[..m])| <= |Stuff(data)|
    ensures Stuff(data)[..|Stuff(data[..m])|] == Stuff(data[..m])
    decreases |data|
  {
    if m == |data| {
      assert data[..m] == data;
    } else {
      var init := data[..|data| - 1];
      assert init[..m] == data[..m];
      StuffPrefix(init, m);
    }
  }

  /** Where data byte m lies in the input, and that a 0xFF is followed by its stuffed zero. */
  lemma StuffedByte(s: Segment, input: seq<byte>, m: nat)
    requires Framed(s, input) && m < |s.data|
    ensures var b, k := s.data[m], s.start + |Stuff(s.data[..m])|;
      && k < |input| && input[k] == b
      && (b == 0xFF ==> k + 1 < |input| && input[k + 1] == 0)
      && s.start + |Stuff(s.data[..m + 1])| == k + (if b == 0xFF then 2 else 1)
  {
    var b, k := s.data[m], |Stuff(s.data[..m])|;
    assert s.data[..m + 1] == s.data[..m] + [b];
    StuffSnoc(s.data[..m], b);
    StuffPrefix(s.data, m + 1);
    var all, upTo := Stuff(s.data), Stuff(s.data[..m + 1]);
    assert upTo[k] == all[k] == input[s.start..s.start + |all|][k] == input[s.start + k];
    if b == 0xFF {
      assert upTo[k + 1] == all[k + 1] == input[s.start..s.start + |all|][k + 1] == input[s.start + k + 1];
    }
  }

  /** Fetching undoes the stuffing. */
  lemma FetchNext(d: Decoder, s: Segment, m: nat)
    requires Framed(s, d.input) && Fetched(d, s, m)
    ensures Fetch(d).0 == Digit(s.data, m)
    ensures var f := Fetch(d).1; Fetched(f, s, m + 1) && f == d.(pos := f.pos, marker := f.marker)
  {
    if m < |s.data| {
      StuffedByte(s, d.input, m);
    } else if m == |s.data| {
      assert s.data[..m] == s.data;
    }
  }

  /** How many bytes the decoder must have fetched to compare its registers with the interval e. */
  function BytesFor(e: Exact, d: Decoder): int
  {
    (16 + e.shifts + d.ct) / 8
  }

  /** The decoder holds the distance of the code from the low end of the interval e. */
  ghost predicate Synced(e: Exact, d: Decoder, s: Segment)
  {
    && Ready(d) && d.tab == e.tab && d.bins == e.bins
    && 0 <= d.ct <= 7 && d.a == e.width && 0 <= d.c
    && 16 + e.shifts + d.ct == 8 * BytesFor(e, d)
    && Framed(s, d.input) && Fetched(d, s, BytesFor(e, d))
    && d.c + e.low * Pow2(d.ct) == Prefix(s.data, BytesFor(e, d))
  }

  /** Initialization (section D.2.7): after the first refill two bytes are in c. */
  lemma StartSynced(s: Segment, input: seq<byte>)
    requires SoundTable(s.tab) && Framed(s, input)
    ensures Synced(Start(s.tab), Refill(StartDecoder(s.tab, input, s.start)), s)
    ensures Refill(StartDecoder(s.tab, input, s.start)).input == input
  {
    var d := StartDecoder(s.tab, input, s.start);
    assert s.data[..0] == [];
    assert Fetched(d, s, 0);
    FetchNext(d, s, 0);
    var d1 := Shifted(d);
    assert d1.ct == -8 && d1.a == 0 && d1.c == Digit(s.data, 0);
    FetchNext(d1, s, 1);
    var d2 := Shifted(d1);
    assert d2.ct == 0 && d2.a == 0x1_0000 && d2.c == 0x100 * d1.c + Digit(s.data, 1);
    assert Refill(d1) == d2;
    assert Prefix(s.data, 2) == 0x100 * Prefix(s.data, 1) + Digit(s.data, 1);
    assert Prefix(s.data, 1) == 0x100 * Prefix(s.data, 0) + Digit(s.data, 0);
  }

  lemma ShiftedWithin(e: Exact, d: Decoder, s: Segment)
    requires Synced(e, d, s) && d.a < 0x8000 && d.ct > 0
    ensures Synced(Doubled(e), Shifted(d), s)
    ensures Shifted(d).input == d.input
  {
    var r := Shifted(d);
    assert BytesFor(Doubled(e), r) == BytesFor(e, d);
    assert Pow2(d.ct) == 2 * Pow2(r.ct);
    MulAssoc(2, e.low, Pow2(r.ct));
  }

  lemma ShiftedAcross(e: Exact, d: Decoder, s: Segment)
    requires Synced(e, d, s) && d.a < 0x8000 && d.ct == 0
    ensures Synced(Doubled(e), Shifted(d), s)
    ensures Shifted(d).input == d.input
  {
    var r, m := Shifted(d), BytesFor(e, d);
    assert BytesFor(Doubled(e), r) == m + 1;
    FetchNext(d, s, m);
    assert Pow2(7) == 0x80 by { Pow2Values(); assert Pow2(8) == 2 * Pow2(7); }
    assert d.c + e.low == Prefix(s.data, m);
    assert r.c == 0x100 * d.c + Digit(s.data, m);
  }

  /** Refilling renormalizes: the decoder catches up with the encoder. */
  lemma RefillSynced(e: Exact, d: Decoder, s: Segment)
    requires Synced(e, d, s)
    ensures Synced(Normalize(e), Refill(d), s)
    ensures Refill(d).input == d.input
    decreases 0x8000 - d.a
  {
    if d.a < 0x8000 {
      if d.ct > 0 {
        ShiftedWithin(e, d, s);
      } else {
        ShiftedAcross(e, d, s);
      }
      RefillSynced(Doubled(e), Shifted(d), s);
    }
  }

  /** The comparison made on the registers is the comparison of the whole code with the split point. */
  lemma CompareCode(e: Exact, d: Decoder, s: Segment, rest: nat, far: nat)
    requires Synced(e, d, s) && |s.data| <= far && 16 + e.shifts <= 8 * far
    ensures d.c >= rest * Pow2(d.ct)
            <==> Padded(s.data, far) >= (e.low + rest) * Pow2(8 * far - 16 - e.shifts)
  {
    var m := BytesFor(e, d);
    var split := (e.low + rest) * Pow2(d.ct);
    assert split == e.low * Pow2(d.ct) + rest * Pow2(d.ct);
    PrefixLess(s.data, m, far, split);
    Pow2Add(d.ct, 8 * (far - m));
    MulAssoc(e.low + rest, Pow2(d.ct), Pow2(8 * (far - m)));
  }

  /** A code inside the narrowed interval lies above the split point exactly when the upper part was taken. */
  lemma SplitSide(e: Exact, k: Decision, v: nat, far: nat)
    requires SoundTable(e.tab) && LegalBins(e.bins) && e.width >= 0x8000
    requires Contains(Narrow(e, k), v, far)
    ensures Rest(e, k.bin) >= 0
    ensures TakesUpper(e, k) <==> v >= (e.low + Rest(e, k.bin)) * Pow2(8 * far - 16 - e.shifts)
  {
    assert SoundEntry(EntryOf(e, k.bin));
  }

  /** A decoder that takes the same part as the encoder decodes the same decision and moves the same bin. */
  lemma DecideFollows(e: Exact, d: Decoder, k: Decision)
    requires Ready(d) && d.a >= 0x8000 && d.tab == e.tab && d.bins == e.bins && d.a == e.width
    requires TakesUpper(e, k) <==> d.c >= Rest(e, k.bin) * Pow2(d.ct)
    ensures var (bit, r) := Decide(d, k.bin);
      && bit == k.bit
      && r == d.(a := Narrow(e, k).width, bins := Narrow(e, k).bins,
                 c := if TakesUpper(e, k) then d.c - Rest(e, k.bin) * Pow2(d.ct) else d.c)
  {
    assert SoundEntry(EntryOf(e, k.bin));
  }

  /** Moving the low end and c together keeps their sum. */
  lemma SyncedNarrow(e: Exact, d: Decoder, s: Segment, n: Exact, r: Decoder)
    requires Synced(e, d, s) && Ready(r)
    requires n == e.(low := n.low, width := n.width, bins := n.bins)
    requires r == d.(a := n.width, bins := n.bins, c := r.c) && r.c >= 0
    requires r.c + n.low * Pow2(d.ct) == d.c + e.low * Pow2(d.ct)
    ensures Synced(n, r, s)
  {
  }

  /** The decision falls as it was coded, and both sides narrow the interval alike. */
  lemma DecideSynced(e: Exact, d: Decoder, s: Segment, k: Decision, far: nat)
    requires Synced(e, d, s) && d.a >= 0x8000
    requires |s.data| <= far && Contains(Narrow(e, k), Padded(s.data, far), far)
    ensures Decide(d, k.bin).0 == k.bit
    ensures Synced(Narrow(e, k), Decide(d, k.bin).1, s)
    ensures Decide(d, k.bin).1.input == d.input
    ensures Fetched(Decide(d, k.bin).1, s, BytesFor(e, d))
  {
    hide Framed, Fetched, Prefix, Padded, BinState, Moved, MovedBins, SoundTable, LegalBins, TakesUpper, Qe, EntryOf, Mps,
      Decide, Pow2;
    SplitSide(e, k, Padded(s.data, far), far);
    CompareCode(e, d, s, Rest(e, k.bin), far);
    DecideFollows(e, d, k);
    DecideReady(d, k.bin);
    MulDistributes(e.low, Rest(e, k.bin), Pow2(d.ct));
    NarrowFacts(e, k);
    SyncedNarrow(e, d, s, Narrow(e, k), Decide(d, k.bin).1);
  }

  /** The decoder d has decoded h, a part of what was written, and will decode what remains. */
  ghost predicate Tracks(d: Decoder, h: History, s: Segment)
  {
    && h <= s.ds && Written(s, d.input) && Ready(d)
    && Refill(d).input == d.input
    && Synced(Run(s.tab, h), Refill(d), s)
    && exists m: nat :: Fetched(d, s, m)
  }

  lemma StartTracks(s: Segment, input: seq<byte>)
    requires Written(s, input)
    ensures Tracks(StartDecoder(s.tab, input, s.start), [], s)
  {
    StartSynced(s, input);
    assert [] <= s.ds;
    assert s.data[..0] == [];
    assert Fetched(StartDecoder(s.tab, input, s.start), s, 0);
  }

  /** The code of the whole segment lies in the interval that the next decision narrows to. */
  lemma NextContains(s: Segment, h: History, k: Decision)
    requires SoundTable(s.tab) && Represents(Run(s.tab, s.ds), s.data) && h + [k] <= s.ds
    ensures var far := Reach(Run(s.tab, s.ds), s.data);
      Contains(Narrow(Run(s.tab, h), k), Padded(s.data, far), far)
  {
    var far := Reach(Run(s.tab, s.ds), s.data);
    RunStep(s.tab, h, k);
    ContainsPrefix(s.tab, h + [k], s.ds, Padded(s.data, far), far);
    ContainsNormalize(Narrow(Run(s.tab, h), k), Padded(s.data, far), far);
  }

  /** arith_decode recovers the next decision, whatever the statistics have adapted to. */
  lemma DecodeTracks(d: Decoder, h: History, s: Segment, area: Area, idx: nat, bit: bool)
    requires Tracks(d, h, s) && Put(h, area, idx, bit) <= s.ds
    ensures Decode(d, Bin(area, idx)).0 == bit
    ensures Tracks(Decode(d, Bin(area, idx)).1, Put(h, area, idx, bit), s)
    ensures Decode(d, Bin(area, idx)).1.input == d.input && Decode(d, Bin(area, idx)).1.tab == s.tab
  {
    var k := Decision(Bin(area, idx), bit);
    var e := Run(s.tab, h);
    NextContains(s, h, k);
    DecideSynced(e, Refill(d), s, k, Reach(Run(s.tab, s.ds), s.data));
    RefillSynced(Narrow(e, k), Decode(d, k.bin).1, s);
    RunStep(s.tab, h, k);
  }

  /** Where a decoder that stands in a segment finds the marker that follows it. */
  function MarkerAfter(d: Decoder): (byte, nat)
  {
    if d.marker != 0 then (d.marker, d.pos) else NextMarker(d.input, d.pos)
  }

  /** Searching for the next marker from a byte of the segment passes over all its data. */
  lemma {:induction false} PassesData(s: Segment, input: seq<byte>, m: nat)
    requires Framed(s, input) && m <= |s.data|
    ensures NextMarker(input, s.start + |Stuff(s.data[..m])|) == NextMarker(input, s.start + |Stuff(s.data)|)
    decreases |s.data| - m
  {
    if m == |s.data| {
      assert s.data[..m] == s.data;
    } else {
      StuffedByte(s, input, m);
      PassesData(s, input, m + 1);
    }
  }

  lemma AtMarker(s: Segment, input: seq<byte>)
    requires Framed(s, input) && s.start + |Stuff(s.data)| < |input|
    ensures var stop := s.start + |Stuff(s.data)|; NextMarker(input, stop) == (input[stop + 1], stop + 2)
  {
  }

  /** However far a decoder has read ahead, it finds the marker right after the segment. */
  lemma FindsMarker(d: Decoder, h: History, s: Segment)
    requires Tracks(d, h, s) && s.start + |Stuff(s.data)| < |d.input|
    ensures var stop := s.start + |Stuff(s.data)|;
      stop + 1 < |d.input| && MarkerAfter(d) == (d.input[stop + 1], stop + 2)
  {
    var m: nat :| Fetched(d, s, m);
    AtMarker(s, d.input);
    if m <= |s.data| {
      PassesData(s, d.input, m);
    }
  }

  /** Decoding a run of bins. */
  function DecodeAll(d: Decoder, bins: seq<Bin>): seq<bool>
    requires Ready(d)
    decreases |bins|
  {
    if bins == [] then []
    else
      var r := Decode(d, bins[0]);
      [r.0] + DecodeAll(r.1, bins[1..])
  }

  function BinsOf(h: History): seq<Bin>
  {
    if h == [] then [] else [h[0].bin] + BinsOf(h[1..])
  }

  function BitsOf(h: History): seq<bool>
  {
    if h == [] then [] else [h[0].bit] + BitsOf(h[1..])
  }

  lemma {:induction false} DecodeAllTracks(d: Decoder, h: History, s: Segment)
    requires Tracks(d, h, s)
    ensures DecodeAll(d, BinsOf(s.ds[|h|..])) == BitsOf(s.ds[|h|..])
    decreases |s.ds| - |h|
  {
    var todo := s.ds[|h|..];
    if todo != [] {
      var k := todo[0];
      var h' := Put(h, k.bin.area, k.bin.idx, k.bit);
      assert h' <= s.ds;
      DecodeTracks(d, h, s, k.bin.area, k.bin.idx, k.bit);
      DecodeAllTracks(Decode(d, k.bin).1, h', s);
      assert s.ds[|h'|..] == todo[1..];
      assert BinsOf(todo)[1..] == BinsOf(todo[1..]);
    }
  }

  /** Every decision of every run is recovered from the bytes that the encoder wrote for it. */
  lemma DecoderInvertsEncoder(s: Segment, input: seq<byte>)
    requires Written(s, input)
    ensures DecodeAll(StartDecoder(s.tab, input, s.start), BinsOf(s.ds)) == BitsOf(s.ds)
  {
    StartTracks(s, input);
    DecodeAllTracks(StartDecoder(s.tab, input, s.start), [], s);
    assert s.ds[0..] == s.ds;
  }
}
