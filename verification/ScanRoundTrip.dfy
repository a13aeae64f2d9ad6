/** A whole scan: its bytes, restart markers included, decode to the MCUs that were coded. */
module ScanRoundTrip {
  import opened Numbers
  import opened AriTable
  import opened IntervalCoder
  import opened ArithRegisters
  import opened ArithFinish
  import opened ArithDecoder
  import opened JpegScan
  import opened McuCoding
  import opened McuDecoding
  import opened ScanCoding
  import opened ScanDecoding

  ghost predicate IsMcu(s: Scan, m: Mcu)
  {
    |m| == |s.membership| && forall j :: 0 <= j < |m| ==> |m[j]| == 64
  }

  ghost predicate AreMcus(s: Scan, mcus: seq<Mcu>)
  {
    forall i :: 0 <= i < |mcus| ==> IsMcu(s, mcus[i])
  }

  /** What the MCUs of one restart interval are coded to. */
  function CodeMcus(s: Scan, mcus: seq<Mcu>): (r: Coded)
    requires ValidScan(s) && AreMcus(s, mcus)
    ensures |r.preds| == |s.comps|
  {
    if mcus == [] then StartCoded(s)
    else
      assert IsMcu(s, mcus[|mcus| - 1]);
      CodeMcu(s, CodeMcus(s, mcus[..|mcus| - 1]), mcus[|mcus| - 1])
  }

  /** What a restart interval can carry: 16-bit coefficients, and DC differences of at most 2^15 in magnitude. */
  ghost predicate Carries(s: Scan, mcus: seq<Mcu>)
    requires ValidScan(s) && AreMcus(s, mcus)
  {
    forall i, j :: 0 <= i < |mcus| && 0 <= j < |mcus[i]| ==> CarriesBlock(s, mcus, i, j)
  }

  ghost predicate CarriesBlock(s: Scan, mcus: seq<Mcu>, i: nat, j: nat)
    requires ValidScan(s) && AreMcus(s, mcus) && i < |mcus| && j < |mcus[i]|
  {
    assert IsMcu(s, mcus[i]);
    IsBlock(mcus[i][j])
    && DcFits(s, CodeBlocks(s, CodeMcus(s, mcus[..i]), mcus[i], j), s.membership[j], mcus[i][j])
  }

  /** The decoder as a supply of decisions. */
  function NextBit(d: Decoder, b: Bin): (bool, Decoder)
  {
    if Ready(d) then Decode(d, b) else (false, d)
  }

  datatype ScanDecoder = ScanDecoder(d: Decoder, preds: seq<Prediction>, restartsToGo: nat, nextRestart: nat)

  function StartScan(s: Scan, tab: seq<int>, input: seq<byte>): ScanDecoder
  {
    ScanDecoder(StartDecoder(tab, input, 0), seq(|s.comps|, i => NO_PREDICTION), s.restartInterval, 0)
  }

  datatype Maybe<T> = None | Some(value: T) {
    function GetOr(other: T): T
    {
      if None? then other else value
    }
  }

  /** process_restart: the marker must be the expected one; statistics, predictions and registers start afresh. */
  function Restarted(s: Scan, sd: ScanDecoder): Maybe<ScanDecoder>
  {
    var (marker, pos) := MarkerAfter(sd.d);
    if marker != 0xD0 + sd.nextRestart then None
    else Some(ScanDecoder(StartDecoder(sd.d.tab, sd.d.input, pos), seq(|s.comps|, i => NO_PREDICTION),
                          s.restartInterval, (sd.nextRestart + 1) % 8))
  }

  function BeforeMcu(s: Scan, sd: ScanDecoder): Maybe<ScanDecoder>
  {
    if s.restartInterval == 0 then Some(sd)
    else
      var r := if sd.restartsToGo == 0 then Restarted(s, sd) else Some(sd);
      if r.None? then None
      else if r.value.restartsToGo == 0 then None
      else Some(r.value.(restartsToGo := r.value.restartsToGo - 1))
  }

  /** The MCUs of a scan, each read into what the decoder holds of it. */
  function ReadMcus(s: Scan, sd: ScanDecoder, held: seq<Mcu>): (r: Maybe<seq<Mcu>>)
    requires ValidScan(s) && AreMcus(s, held)
    requires |sd.preds| == |s.comps|
    ensures r.Some? ==> |r.value| == |held| && AreMcus(s, r.value)
    decreases |held|
  {
    if held == [] then Some([])
    else
      var b := BeforeMcu(s, sd);
      if b.None? then None
      else
        assert IsMcu(s, held[0]);
        var r := ReadBlocks(NextBit, b.value.d, s, Held(b.value.preds, held[0]), 0);
        if r.Corrupt? then None
        else
          var rest := ReadMcus(s, b.value.(d := r.d, preds := r.value.preds), held[1..]);
          if rest.None? then None else Some([r.value.mcu] + rest.value)
  }

  // ---- The bytes of a scan ----

  /** A finished segment: the MCUs of a restart interval, their decisions and their data bytes. */
  datatype Part = Part(mcus: seq<Mcu>, ds: History, data: seq<byte>)

  /** The segments before the last one, each followed by its restart marker. */
  function Closed(parts: seq<Part>): seq<byte>
  {
    if parts == [] then []
    else
      var n := |parts| - 1;
      Closed(parts[..n]) + Stuff(parts[n].data) + [0xFF, 0xD0 + n % 8]
  }

  ghost predicate PartCodes(s: Scan, tab: seq<int>, p: Part)
  {
    && ValidScan(s) && SoundTable(tab) && AreMcus(s, p.mcus)
    && p.ds == CodeMcus(s, p.mcus).h
    && Represents(Run(tab, p.ds), p.data)
  }

  ghost predicate FullPart(s: Scan, tab: seq<int>, p: Part)
  {
    PartCodes(s, tab, p) && |p.mcus| == s.restartInterval > 0
  }

  /** What may follow the data of a scan: nothing, or a marker. */
  predicate StartsWithMarker(tail: seq<byte>)
  {
    tail != [] ==> |tail| >= 2 && tail[0] == 0xFF && tail[1] != 0 && tail[1] != 0xFF
  }

  /** The segments of a scan: full ones closed by restart markers, then the last one. */
  ghost predicate ScanParts(s: Scan, tab: seq<int>, parts: seq<Part>, last: Part)
  {
    && (forall p :: p in parts ==> FullPart(s, tab, p))
    && PartCodes(s, tab, last)
    && (s.restartInterval > 0 ==> |last.mcus| <= s.restartInterval)
    && (parts != [] ==> last.mcus != [])
  }

  /** All MCUs of the scan, in order. */
  function AllMcus(parts: seq<Part>, last: Part): seq<Mcu>
  {
    if parts == [] then last.mcus else parts[0].mcus + AllMcus(parts[1..], last)
  }

  /** The MCUs of one segment fit the scan, and the decoder holds what it needs for them. */
  ghost predicate PartFits(s: Scan, mcus: seq<Mcu>, held: seq<Mcu>)
  {
    && ValidScan(s) && |held| == |mcus| && AreMcus(s, mcus) && AreMcus(s, held)
    && forall i :: 0 <= i < |mcus| ==>
         (assert IsMcu(s, mcus[i]) && IsMcu(s, held[i]);
          McuFits(s, CodeMcus(s, mcus[..i]), mcus[i], held[i]))
  }

  /** The same for all segments of a scan. */
  ghost predicate AllFit(s: Scan, parts: seq<Part>, last: Part, held: seq<Mcu>)
  {
    if parts == [] then PartFits(s, last.mcus, held)
    else
      var n := |parts[0].mcus|;
      && n <= |held|
      && PartFits(s, parts[0].mcus, held[..n])
      && AllFit(s, parts[1..], last, held[n..])
  }

  ghost predicate AllReached(s: Scan, mcus: seq<Mcu>, held: seq<Mcu>, after: seq<Mcu>)
  {
    && ValidScan(s) && |mcus| == |held| == |after|
    && forall i :: 0 <= i < |mcus| ==>
         IsMcu(s, mcus[i]) && IsMcu(s, held[i]) && McuReached(s, mcus[i], held[i], after[i])
  }

  lemma CodeMcusMonotone(s: Scan, mcus: seq<Mcu>, i: nat)
    requires ValidScan(s) && AreMcus(s, mcus) && i <= |mcus|
    ensures CodeMcus(s, mcus[..i]).h <= CodeMcus(s, mcus).h
    decreases |mcus|
  {
    hide CodeMcu;
    if i == |mcus| {
      assert mcus[..i] == mcus;
    } else {
      var init := mcus[..|mcus| - 1];
      assert init[..i] == mcus[..i];
      CodeMcusMonotone(s, init, i);
    }
  }

  /** The decoder follows the decisions of a segment. */
  lemma NextBitFollows(seg: Segment, input: seq<byte>)
    ensures Follows(NextBit, (d: Decoder, h: History) => Tracks(d, h, seg) && d.input == input && d.tab == seg.tab, seg.ds)
  {
    var at := (d: Decoder, h: History) => Tracks(d, h, seg) && d.input == input && d.tab == seg.tab;
    forall d, h, area, idx, bit | at(d, h) && Put(h, area, idx, bit) <= seg.ds
      ensures NextBit(d, Bin(area, idx)).0 == bit && at(NextBit(d, Bin(area, idx)).1, Put(h, area, idx, bit))
    {
      hide Decode;
      DecodeTracks(d, h, seg, area, idx, bit);
    }
  }

  /** The state of the decoder after i MCUs of a segment. */
  ghost predicate Amid(s: Scan, sd: ScanDecoder, seg: Segment, mcus: seq<Mcu>, i: nat, input: seq<byte>)
    requires ValidScan(s) && i <= |mcus| && AreMcus(s, mcus)
  {
    && Tracks(sd.d, CodeMcus(s, mcus[..i]).h, seg) && sd.d.input == input && sd.d.tab == seg.tab
    && seg.ds == CodeMcus(s, mcus).h
    && sd.preds == CodeMcus(s, mcus[..i]).preds
    && (s.restartInterval > 0 ==> sd.restartsToGo == s.restartInterval - i)
  }

  /** One MCU inside a segment. */
  lemma OneMcu(s: Scan, sd: ScanDecoder, seg: Segment, mcus: seq<Mcu>, i: nat, held: Mcu, input: seq<byte>)
    requires ValidScan(s) && i < |mcus| && AreMcus(s, mcus) && IsMcu(s, held)
    requires Amid(s, sd, seg, mcus, i, input) && (s.restartInterval > 0 ==> i < s.restartInterval)
    requires McuFits(s, CodeMcus(s, mcus[..i]), mcus[i], held)
    ensures var b := BeforeMcu(s, sd);
      && b.Some? && |b.value.preds| == |s.comps|
      && var r := ReadBlocks(NextBit, b.value.d, s, Held(b.value.preds, held), 0);
      && r.Good? && McuReached(s, mcus[i], held, r.value.mcu)
      && Amid(s, b.value.(d := r.d, preds := r.value.preds), seg, mcus, i + 1, input)
  {
    hide CodeMcu, Tracks, Decode, McuFits, McuReached, Follows;
    var at := (d: Decoder, h: History) => Tracks(d, h, seg) && d.input == input && d.tab == seg.tab;
    NextBitFollows(seg, input);
    var c := CodeMcus(s, mcus[..i]);
    assert mcus[..i + 1][..i] == mcus[..i];
    assert CodeMcus(s, mcus[..i + 1]) == CodeMcu(s, c, mcus[i]);
    CodeMcusMonotone(s, mcus, i + 1);
    McuReads(NextBit, at, seg.ds, sd.d, s, c, mcus[i], Held(sd.preds, held));
  }

  function Prepend(after: seq<Mcu>, r: Maybe<seq<Mcu>>): Maybe<seq<Mcu>>
  {
    if r.None? then None else Some(after + r.value)
  }

  /** The MCUs from i on of a segment; reading goes on after them in the state sd'. */
  lemma {:induction false} SegmentReads(s: Scan, sd: ScanDecoder, seg: Segment, mcus: seq<Mcu>, i: nat, held: seq<Mcu>,
                                        rest: seq<Mcu>, input: seq<byte>) returns (sd': ScanDecoder, after: seq<Mcu>)
    requires ValidScan(s) && AreMcus(s, mcus) && AreMcus(s, held) && AreMcus(s, rest) && i <= |mcus| == |held|
    requires Amid(s, sd, seg, mcus, i, input) && (s.restartInterval > 0 ==> |mcus| <= s.restartInterval)
    requires PartFits(s, mcus, held)
    ensures Amid(s, sd', seg, mcus, |mcus|, input) && sd'.nextRestart == sd.nextRestart
    ensures AllReached(s, mcus[i..], held[i..], after)
    ensures ReadMcus(s, sd, held[i..] + rest) == Prepend(after, ReadMcus(s, sd', rest))
    decreases |mcus| - i
  {
    hide CodeMcu, CodeMcus, Tracks, McuFits, McuReached, ReadBlocks;
    if i == |mcus| {
      sd', after := sd, [];
      assert held[i..] + rest == rest;
      assert [] + ReadMcus(s, sd', rest).GetOr([]) == ReadMcus(s, sd', rest).GetOr([]);
    } else {
      assert IsMcu(s, mcus[i]) && IsMcu(s, held[i]);
      OneMcu(s, sd, seg, mcus, i, held[i], input);
      var b := BeforeMcu(s, sd).value;
      var r := ReadBlocks(NextBit, b.d, s, Held(b.preds, held[i]), 0);
      sd', after := SegmentReads(s, b.(d := r.d, preds := r.value.preds), seg, mcus, i + 1, held, rest, input);
      var more := held[i..] + rest;
      assert more[0] == held[i] && more[1..] == held[i + 1..] + rest;
      assert AreMcus(s, more);
      assert [r.value.mcu] + after + ReadMcus(s, sd', rest).GetOr([]) == [r.value.mcu] + (after + ReadMcus(s, sd', rest).GetOr([]));
      after := [r.value.mcu] + after;
    }
  }

  /** The segment that a part occupies in the input. */
  function SegmentOf(tab: seq<int>, done: seq<Part>, p: Part): Segment
  {
    Segment(tab, p.ds, p.data, |Closed(done)|)
  }

  /** A fresh decoder at the start of a segment is ready for its first MCU. */
  lemma FreshAmid(s: Scan, tab: seq<int>, done: seq<Part>, p: Part, input: seq<byte>, sd: ScanDecoder)
    requires PartCodes(s, tab, p) && Written(SegmentOf(tab, done, p), input)
    requires sd.d == StartDecoder(tab, input, |Closed(done)|) && sd.preds == StartCoded(s).preds
    requires sd.restartsToGo == s.restartInterval
    ensures Amid(s, sd, SegmentOf(tab, done, p), p.mcus, 0, input)
  {
    hide CodeMcu, Tracks, Written;
    assert p.mcus[..0] == [];
    StartTracks(SegmentOf(tab, done, p), input);
  }

  function Marked(done: seq<Part>, p: Part): seq<byte>
  {
    Closed(done) + Stuff(p.data) + [0xFF, 0xD0 + |done| % 8]
  }

  /** A segment that is closed is followed by a restart marker, numbered from 0 to 7 over and over again. */
  lemma ClosedSnoc(done: seq<Part>, p: Part)
    ensures Closed(done + [p]) == Marked(done, p) == Closed(done) + Stuff(p.data) + [0xFF, 0xD0 + |done| % 8]
  {
    hide Stuff;
    var parts := done + [p];
    assert parts[..|parts| - 1] == done && parts[|parts| - 1] == p;
  }

  lemma {:induction false} ClosedStarts(done: seq<Part>, todo: seq<Part>)
    ensures Closed(done) <= Closed(done + todo)
    decreases |todo|
  {
    if todo == [] {
      assert done + todo == done;
    } else {
      var init, p := todo[..|todo| - 1], todo[|todo| - 1];
      assert done + todo == (done + init) + [p];
      ClosedSnoc(done + init, p);
      ClosedStarts(done, init);
    }
  }

  /** A piece of a prefix is the same piece of the whole. */
  lemma PieceOf(c: seq<byte>, input: seq<byte>, lo: nat, hi: nat)
    requires c <= input && lo <= hi <= |c|
    ensures input[lo..hi] == c[lo..hi]
  {
  }

  /** A closed part is framed by its restart marker. */
  lemma PartFramed(s: Scan, tab: seq<int>, done: seq<Part>, p: Part, todo: seq<Part>, after: seq<byte>, input: seq<byte>)
    requires PartCodes(s, tab, p) && input == Closed(done + [p] + todo) + after
    ensures Written(SegmentOf(tab, done, p), input)
    ensures var stop := |Closed(done)| + |Stuff(p.data)|;
      stop + 2 == |Closed(done + [p])| <= |input| && input[stop] == 0xFF && input[stop + 1] == 0xD0 + |done| % 8
  {
    hide CodeMcus, Represents, Closed, Stuff;
    ClosedSnoc(done, p);
    ClosedStarts(done + [p], todo);
    var c, start := Marked(done, p), |Closed(done)|;
    var stop := start + |Stuff(p.data)|;
    assert c <= input;
    PieceOf(c, input, start, stop);
    assert c[start..stop] == Stuff(p.data);
    assert input[stop] == c[stop] && input[stop + 1] == c[stop + 1];
  }

  lemma LastFramed(s: Scan, tab: seq<int>, parts: seq<Part>, last: Part, tail: seq<byte>, input: seq<byte>)
    requires PartCodes(s, tab, last) && StartsWithMarker(tail) && input == Closed(parts) + Stuff(last.data) + tail
    ensures Written(SegmentOf(tab, parts, last), input)
  {
    hide CodeMcus, Represents, Closed, Stuff;
    var start := |Closed(parts)|;
    assert input[start..start + |Stuff(last.data)|] == Stuff(last.data);
  }

  /** After a full segment the next MCU restarts the decoder, at the segment that follows. */
  lemma Restarts(s: Scan, sd: ScanDecoder, seg: Segment, mcus: seq<Mcu>, held: seq<Mcu>, input: seq<byte>)
    requires ValidScan(s) && AreMcus(s, mcus) && AreMcus(s, held) && held != [] && |mcus| == s.restartInterval > 0
    requires Amid(s, sd, seg, mcus, |mcus|, input) && sd.nextRestart < 8
    requires var stop := seg.start + |Stuff(seg.data)|;
      stop + 2 <= |input| && input[stop] == 0xFF && input[stop + 1] == 0xD0 + sd.nextRestart
    ensures var stop := seg.start + |Stuff(seg.data)|;
      && var anew := ScanDecoder(StartDecoder(seg.tab, input, stop + 2), StartCoded(s).preds, s.restartInterval,
                                  (sd.nextRestart + 1) % 8);
      && ReadMcus(s, sd, held) == ReadMcus(s, anew, held)
  {
    hide CodeMcus, Tracks, ReadBlocks;
    FindsMarker(sd.d, CodeMcus(s, mcus[..|mcus|]).h, seg);
  }

  lemma LastReads(s: Scan, tab: seq<int>, done: seq<Part>, last: Part, tail: seq<byte>, held: seq<Mcu>,
                  input: seq<byte>, sd: ScanDecoder)
    requires ScanParts(s, tab, done, last) && StartsWithMarker(tail) && input == Closed(done) + Stuff(last.data) + tail
    requires PartFits(s, last.mcus, held)
    requires sd == ScanDecoder(StartDecoder(tab, input, |Closed(done)|), StartCoded(s).preds, s.restartInterval, |done| % 8)
    ensures var r := ReadMcus(s, sd, held); r.Some? && AllReached(s, last.mcus, held, r.value)
  {
    hide CodeMcus, McuFits, McuReached, Closed, Stuff;
    LastFramed(s, tab, done, last, tail, input);
    FreshAmid(s, tab, done, last, input, sd);
    var sd', after := SegmentReads(s, sd, SegmentOf(tab, done, last), last.mcus, 0, held, [], input);
    assert held[0..] + [] == held && last.mcus[0..] == last.mcus && held[0..] == held;
    assert after + [] == after;
  }

  /** The decoder as a (re)start leaves it, after the segments `done`. */
  function Anew(s: Scan, tab: seq<int>, done: seq<Part>, input: seq<byte>): ScanDecoder
  {
    ScanDecoder(StartDecoder(tab, input, |Closed(done)|), StartCoded(s).preds, s.restartInterval, |done| % 8)
  }

  /** A segment and its restart marker are read, and the decoder starts anew on the next segment. */
  lemma PartReads(s: Scan, tab: seq<int>, done: seq<Part>, p: Part, todo: seq<Part>, last: Part, tail: seq<byte>,
                  held: seq<Mcu>, rest: seq<Mcu>, input: seq<byte>) returns (after: seq<Mcu>)
    requires FullPart(s, tab, p) && input == Closed(done + [p] + todo) + (Stuff(last.data) + tail)
    requires PartFits(s, p.mcus, held) && AreMcus(s, rest) && rest != []
    ensures AllReached(s, p.mcus, held, after)
    ensures AreMcus(s, held + rest)
    ensures ReadMcus(s, Anew(s, tab, done, input), held + rest)
         == Prepend(after, ReadMcus(s, Anew(s, tab, done + [p], input), rest))
  {
    hide CodeMcus, McuFits, McuReached, Closed, Stuff, Represents, ReadMcus, Amid, Written, AllReached;
    var sd := Anew(s, tab, done, input);
    var seg := SegmentOf(tab, done, p);
    PartFramed(s, tab, done, p, todo, Stuff(last.data) + tail, input);
    FreshAmid(s, tab, done, p, input, sd);
    var sd';
    sd', after := SegmentReads(s, sd, seg, p.mcus, 0, held, rest, input);
    assert held[0..] == held && p.mcus[0..] == p.mcus;
    Restarts(s, sd', seg, p.mcus, rest, input);
    NextRestart(|done|);
  }

  lemma NextRestart(n: nat)
    ensures (n + 1) % 8 == (n % 8 + 1) % 8
  {
  }

  lemma {:induction false} FitNonempty(s: Scan, tab: seq<int>, parts: seq<Part>, last: Part, held: seq<Mcu>)
    requires ScanParts(s, tab, parts, last) && AllFit(s, parts, last, held)
    ensures AreMcus(s, held) && ValidScan(s)
    ensures last.mcus != [] ==> held != []
    decreases |parts|
  {
    hide McuFits, CodeMcus;
    if parts != [] {
      var n := |parts[0].mcus|;
      FitNonempty(s, tab, parts[1..], last, held[n..]);
      assert held == held[..n] + held[n..];
    }
  }

  lemma ReachedJoin(s: Scan, m1: seq<Mcu>, m2: seq<Mcu>, held: seq<Mcu>, a1: seq<Mcu>, a2: seq<Mcu>)
    requires |m1| <= |held| && AllReached(s, m1, held[..|m1|], a1) && AllReached(s, m2, held[|m1|..], a2)
    ensures AllReached(s, m1 + m2, held, a1 + a2)
  {
    hide McuReached;
    var n := |m1|;
    forall i | 0 <= i < |held|
      ensures IsMcu(s, (m1 + m2)[i]) && IsMcu(s, held[i]) && McuReached(s, (m1 + m2)[i], held[i], (a1 + a2)[i])
    {
      if i < n {
        assert held[..n][i] == held[i] && m1[i] == (m1 + m2)[i];
      } else {
        assert held[n..][i - n] == held[i] && m2[i - n] == (m1 + m2)[i];
      }
    }
  }

  lemma {:induction false} PartsRead(s: Scan, tab: seq<int>, done: seq<Part>, todo: seq<Part>, last: Part,
                                     tail: seq<byte>, held: seq<Mcu>, input: seq<byte>)
    requires ScanParts(s, tab, done + todo, last) && StartsWithMarker(tail)
    requires input == Closed(done + todo) + Stuff(last.data) + tail
    requires AllFit(s, todo, last, held)
    ensures AreMcus(s, held)
    ensures var r := ReadMcus(s, Anew(s, tab, done, input), held);
      r.Some? && AllReached(s, AllMcus(todo, last), held, r.value)
    decreases |todo|
  {
    hide PartCodes, McuReached, Closed, Stuff, ReadMcus, PartFits, AllReached;
    assert forall p :: p in todo ==> p in done + todo;
    FitNonempty(s, tab, todo, last, held);
    if todo == [] {
      assert done + todo == done;
      LastReads(s, tab, done, last, tail, held, input, Anew(s, tab, done, input));
    } else {
      var p, more, n := todo[0], todo[1..], |todo[0].mcus|;
      assert p in todo;
      assert done + todo == done + [p] + more;
      assert input == Closed(done + [p] + more) + (Stuff(last.data) + tail);
      FitNonempty(s, tab, more, last, held[n..]);
      var after := PartReads(s, tab, done, p, more, last, tail, held[..n], held[n..], input);
      PartsRead(s, tab, done + [p], more, last, tail, held[n..], input);
      assert held[..n] + held[n..] == held;
      ReachedJoin(s, p.mcus, AllMcus(more, last), held, after,
                  ReadMcus(s, Anew(s, tab, done + [p], input), held[n..]).value);
    }
  }

  /** The whole scan is read back: every MCU of every restart interval reaches the bit position of the scan. */
  lemma ScanReads(s: Scan, tab: seq<int>, parts: seq<Part>, last: Part, tail: seq<byte>, held: seq<Mcu>, input: seq<byte>)
    requires ScanParts(s, tab, parts, last) && StartsWithMarker(tail) && AllFit(s, parts, last, held)
    requires input == Closed(parts) + Stuff(last.data) + tail
    ensures AreMcus(s, held)
    ensures var r := ReadMcus(s, StartScan(s, tab, input), held);
      r.Some? && AllReached(s, AllMcus(parts, last), held, r.value)
  {
    assert [] + parts == parts;
    assert Closed([]) == [];
    assert StartScan(s, tab, input) == Anew(s, tab, [], input);
    PartsRead(s, tab, [], parts, last, tail, held, input);
  }
}
