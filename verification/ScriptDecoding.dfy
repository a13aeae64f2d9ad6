/** A file of several scans: each is read into the coefficient arrays of the whole picture, and together they bring
    every block of the picture to the bit positions of the script. */
module ScriptDecoding {
  import opened Numbers
  import opened IntervalCoder
  import opened ArithRegisters
  import opened JpegScan
  import opened ScanCoding
  import opened ScanDecoding
  import opened ScanRoundTrip
  import opened ProgressiveScript

  /** A place in the coefficient array of a component. */
  datatype Place = Place(comp: nat, row: nat, col: nat)

  type Arrays = map<Place, Block>

  /** Where the blocks of each MCU of a scan are. */
  type Layout = seq<seq<Place>>

  ghost predicate IsArrays(a: Arrays)
  {
    forall p :: p in a ==> |a[p]| == 64
  }

  /** Every MCU has as many places as the scan has blocks, and all of them are in the arrays. */
  ghost predicate LaidOut(s: Scan, layout: Layout, a: Arrays)
  {
    && (forall i :: 0 <= i < |layout| ==> |layout[i]| == |s.membership|)
    && forall i, j :: 0 <= i < |layout| && 0 <= j < |layout[i]| ==> layout[i][j] in a
  }

  /** No block is in a scan twice. */
  ghost predicate Distinct(layout: Layout)
  {
    forall i, j, k, l :: 0 <= i < |layout| && 0 <= j < |layout[i]| && 0 <= k < |layout| && 0 <= l < |layout[k]| ==>
      (layout[i][j] == layout[k][l] ==> i == k && j == l)
  }

  ghost predicate InLayout(layout: Layout, p: Place)
  {
    exists i, j :: 0 <= i < |layout| && 0 <= j < |layout[i]| && layout[i][j] == p
  }

  // ---- Blocks out of the arrays and into them ----

  function PickMcu(places: seq<Place>, a: Arrays): (m: Mcu)
    ensures |m| == |places| && forall j :: 0 <= j < |m| && places[j] in a ==> m[j] == a[places[j]]
  {
    seq(|places|, j requires 0 <= j < |places| => if places[j] in a then a[places[j]] else [])
  }

  function Pick(layout: Layout, a: Arrays): (mcus: seq<Mcu>)
    ensures |mcus| == |layout| && forall i :: 0 <= i < |mcus| ==> mcus[i] == PickMcu(layout[i], a)
  {
    seq(|layout|, i requires 0 <= i < |layout| => PickMcu(layout[i], a))
  }

  function PutMcu(places: seq<Place>, mcu: Mcu, a: Arrays): (r: Arrays)
    requires |places| == |mcu|
    ensures forall p :: p !in places && p in a ==> p in r && r[p] == a[p]
    ensures forall p :: p in r <==> p in a || p in places
    ensures IsArrays(a) && (forall j :: 0 <= j < |mcu| ==> |mcu[j]| == 64) ==> IsArrays(r)
  {
    if places == [] then a
    else
      var n := |places| - 1;
      assert places == places[..n] + [places[n]];
      PutMcu(places[..n], mcu[..n], a)[places[n] := mcu[n]]
  }

  ghost predicate Shaped(s: Scan, layout: Layout, mcus: seq<Mcu>)
  {
    |layout| == |mcus| && AreMcus(s, mcus) && forall i :: 0 <= i < |layout| ==> |layout[i]| == |s.membership|
  }

  function Put(s: Scan, layout: Layout, mcus: seq<Mcu>, a: Arrays): (r: Arrays)
    requires Shaped(s, layout, mcus)
    ensures IsArrays(a) ==> IsArrays(r)
    ensures forall p :: p in r <==> p in a || InLayout(layout, p)
    ensures forall p :: p in a && !InLayout(layout, p) ==> r[p] == a[p]
  {
    if layout == [] then a
    else
      var n := |layout| - 1;
      assert IsMcu(s, mcus[n]);
      PutLast(layout);
      PutMcu(layout[n], mcus[n], Put(s, layout[..n], mcus[..n], a))
  }

  lemma PutLast(layout: Layout)
    requires layout != []
    ensures forall p :: InLayout(layout, p) <==> InLayout(layout[..|layout| - 1], p) || p in layout[|layout| - 1]
  {
    var n := |layout| - 1;
    forall p
      ensures InLayout(layout, p) <==> InLayout(layout[..n], p) || p in layout[n]
    {
      if InLayout(layout, p) {
        var i, j :| 0 <= i < |layout| && 0 <= j < |layout[i]| && layout[i][j] == p;
        assert i < n ==> layout[..n][i][j] == p;
      }
      if InLayout(layout[..n], p) {
        var i, j :| 0 <= i < n && 0 <= j < |layout[..n][i]| && layout[..n][i][j] == p;
        assert layout[i][j] == p;
      }
      if p in layout[n] {
        var j :| 0 <= j < |layout[n]| && layout[n][j] == p;
      }
    }
  }

  lemma {:induction false} PutMcuIs(places: seq<Place>, mcu: Mcu, a: Arrays, j: nat)
    requires |places| == |mcu| && j < |places| && forall i, k :: 0 <= i < k < |places| ==> places[i] != places[k]
    ensures PutMcu(places, mcu, a)[places[j]] == mcu[j]
    decreases |places|
  {
    var n := |places| - 1;
    if j < n {
      PutMcuIs(places[..n], mcu[..n], a, j);
      assert places[j] != places[n];
    }
  }

  /** Blocks that are put into the arrays are there afterwards. */
  lemma {:induction false} PutIs(s: Scan, layout: Layout, mcus: seq<Mcu>, a: Arrays, i: nat, j: nat)
    requires Shaped(s, layout, mcus) && Distinct(layout) && i < |layout| && j < |layout[i]|
    ensures layout[i][j] in Put(s, layout, mcus, a) && |mcus[i]| == |layout[i]|
    ensures Put(s, layout, mcus, a)[layout[i][j]] == mcus[i][j]
    decreases |layout|
  {
    var n := |layout| - 1;
    assert IsMcu(s, mcus[i]) && IsMcu(s, mcus[n]);
    PutSnoc(s, layout, mcus, a);
    hide PutMcu, Put;
    var before := Put(s, layout[..n], mcus[..n], a);
    if i == n {
      PutMcuIs(layout[n], mcus[n], before, j);
    } else {
      DistinctPrefix(layout, n);
      PutIs(s, layout[..n], mcus[..n], a, i, j);
      assert layout[i][j] !in layout[n];
    }
  }

  lemma PutSnoc(s: Scan, layout: Layout, mcus: seq<Mcu>, a: Arrays)
    requires Shaped(s, layout, mcus) && |layout| > 0
    ensures var n := |layout| - 1;
      IsMcu(s, mcus[n]) && Shaped(s, layout[..n], mcus[..n])
      && Put(s, layout, mcus, a) == PutMcu(layout[n], mcus[n], Put(s, layout[..n], mcus[..n], a))
  {
    hide PutMcu;
    assert IsMcu(s, mcus[|layout| - 1]);
  }

  lemma DistinctPrefix(layout: Layout, n: nat)
    requires Distinct(layout) && n <= |layout|
    ensures Distinct(layout[..n])
  {
    assert forall k :: 0 <= k < n ==> layout[..n][k] == layout[k];
  }

  // ---- Reading scan after scan ----

  /** consume_data for one scan: its MCUs are read into their places. */
  function ReadPass(s: Scan, layout: Layout, tab: seq<int>, input: seq<byte>, a: Arrays): (r: Maybe<Arrays>)
    requires ValidScan(s) && IsArrays(a) && LaidOut(s, layout, a)
    ensures r.Some? ==> IsArrays(r.value) && r.value.Keys == a.Keys
  {
    PickedMcus(s, layout, a);
    var mcus := ReadMcus(s, StartScan(s, tab, input), Pick(layout, a));
    if mcus.None? then None else Some(Put(s, layout, mcus.value, a))
  }

  lemma PickedMcus(s: Scan, layout: Layout, a: Arrays)
    requires IsArrays(a) && LaidOut(s, layout, a)
    ensures AreMcus(s, Pick(layout, a))
    ensures forall p :: InLayout(layout, p) ==> p in a
  {
    forall i | 0 <= i < |layout|
      ensures IsMcu(s, Pick(layout, a)[i])
    {
      assert forall j :: 0 <= j < |layout[i]| ==> layout[i][j] in a;
    }
  }

  /** A scan as the decoder meets it. */
  datatype Received = Received(s: Scan, layout: Layout, input: seq<byte>)

  ghost predicate CanReceive(script: seq<Received>, places: set<Place>)
  {
    forall i :: 0 <= i < |script| ==> CanReceiveOne(script[i], places)
  }

  ghost predicate CanReceiveOne(r: Received, places: set<Place>)
  {
    && ValidScan(r.s) && (forall i :: 0 <= i < |r.layout| ==> |r.layout[i]| == |r.s.membership|)
    && forall i, j :: 0 <= i < |r.layout| && 0 <= j < |r.layout[i]| ==> r.layout[i][j] in places
  }

  /** The arrays after all scans. */
  function ReadScript(tab: seq<int>, script: seq<Received>, a: Arrays): (r: Maybe<Arrays>)
    requires IsArrays(a) && CanReceive(script, a.Keys)
    ensures r.Some? ==> IsArrays(r.value) && r.value.Keys == a.Keys
    decreases |script|
  {
    if script == [] then Some(a)
    else
      assert CanReceiveOne(script[0], a.Keys);
      var r := ReadPass(script[0].s, script[0].layout, tab, script[0].input, a);
      if r.None? then None else ReadScript(tab, script[1..], r.value)
  }

  // ---- What has been sent ----

  /** A scan as the encoder leaves it, and the bytes that follow it. */
  datatype Sent = Sent(s: Scan, layout: Layout, parts: seq<Part>, last: Part, tail: seq<byte>)

  function Arrived(p: Sent): Received
  {
    Received(p.s, p.layout, Closed(p.parts) + Stuff(p.last.data) + p.tail)
  }

  ghost predicate CarriesAll(s: Scan, parts: seq<Part>, last: Part)
  {
    && ValidScan(s) && (forall p :: p in parts ==> AreMcus(s, p.mcus) && Carries(s, p.mcus))
    && AreMcus(s, last.mcus) && Carries(s, last.mcus)
  }

  /** The scan carries the blocks of `src` at its places. */
  ghost predicate SentFrom(tab: seq<int>, src: Arrays, p: Sent)
  {
    && ScanParts(p.s, tab, p.parts, p.last) && StartsWithMarker(p.tail)
    && LaidOut(p.s, p.layout, src) && Distinct(p.layout)
    && AllMcus(p.parts, p.last) == Pick(p.layout, src)
    && CarriesAll(p.s, p.parts, p.last)
  }

  // ---- One scan ----

  ghost predicate NeedsMet(s: Scan, mcus: seq<Mcu>, held: seq<Mcu>)
  {
    && ValidScan(s) && |mcus| == |held| && AreMcus(s, mcus) && AreMcus(s, held)
    && forall i, j :: 0 <= i < |mcus| && 0 <= j < |s.membership| ==>
         (assert IsMcu(s, mcus[i]) && IsMcu(s, held[i]); Needs(s, mcus[i][j], held[i][j]))
  }

  lemma PartNeeds(s: Scan, mcus: seq<Mcu>, held: seq<Mcu>)
    requires NeedsMet(s, mcus, held) && Carries(s, mcus)
    ensures PartFits(s, mcus, held)
  {
    hide Needs, IsBlock, DcFits, CodeMcus, CodeBlocks, IsOrder;
    forall i | 0 <= i < |mcus|
      ensures IsMcu(s, mcus[i]) && IsMcu(s, held[i]) && McuFits(s, CodeMcus(s, mcus[..i]), mcus[i], held[i])
    {
      assert IsMcu(s, mcus[i]) && IsMcu(s, held[i]);
      var c := CodeMcus(s, mcus[..i]);
      forall j | 0 <= j < |mcus[i]|
        ensures IsBlock(mcus[i][j]) && Needs(s, mcus[i][j], held[i][j])
        ensures DcFits(s, CodeBlocks(s, c, mcus[i], j), s.membership[j], mcus[i][j])
      {
        assert CarriesBlock(s, mcus, i, j);
      }
    }
  }

  lemma {:induction false} AllNeeds(s: Scan, parts: seq<Part>, last: Part, held: seq<Mcu>)
    requires CarriesAll(s, parts, last) && NeedsMet(s, AllMcus(parts, last), held)
    ensures AllFit(s, parts, last, held)
    decreases |parts|
  {
    hide Needs, Carries;
    if parts == [] {
      PartNeeds(s, last.mcus, held);
    } else {
      var n, rest := |parts[0].mcus|, AllMcus(parts[1..], last);
      var all := AllMcus(parts, last);
      assert all[..n] == parts[0].mcus && all[n..] == rest;
      assert parts[0] in parts && forall p :: p in parts[1..] ==> p in parts;
      NeedsSplit(s, all, held, n);
      PartNeeds(s, parts[0].mcus, held[..n]);
      AllNeeds(s, parts[1..], last, held[n..]);
    }
  }

  lemma NeedsSplit(s: Scan, mcus: seq<Mcu>, held: seq<Mcu>, n: nat)
    requires NeedsMet(s, mcus, held) && n <= |mcus|
    ensures NeedsMet(s, mcus[..n], held[..n]) && NeedsMet(s, mcus[n..], held[n..])
  {
    hide Needs, IsOrder;
    forall i | 0 <= i < |mcus| - n
      ensures mcus[n..][i] == mcus[n + i] && held[n..][i] == held[n + i]
      ensures IsMcu(s, mcus[n..][i]) && IsMcu(s, held[n..][i])
    {
      assert IsMcu(s, mcus[n + i]) && IsMcu(s, held[n + i]);
    }
    forall i | 0 <= i < n
      ensures IsMcu(s, mcus[..n][i]) && IsMcu(s, held[..n][i])
    {
      assert IsMcu(s, mcus[i]) && IsMcu(s, held[i]);
    }
  }

  // ---- How far the blocks of the picture are ----

  /** For each component, the bit positions that its blocks have been brought to. */
  type Positions = seq<Progress>

  ghost predicate HasComp(layout: Layout, c: nat)
  {
    exists i, j :: 0 <= i < |layout| && 0 <= j < |layout[i]| && layout[i][j].comp == c
  }

  ghost predicate ArePositions(at: Positions)
  {
    forall c :: 0 <= c < |at| ==> IsProgress(at[c])
  }

  ghost function AdvancedBy(s: Scan, layout: Layout, at: Positions): (r: Positions)
    requires ArePositions(at)
    ensures |r| == |at| && ArePositions(r)
  {
    seq(|at|, c requires 0 <= c < |at| => if HasComp(layout, c) then Advanced(s, at[c]) else at[c])
  }

  /** The blocks in `inside` are there down to their positions; of the others, those that only pad MCUs, what has not
      been sent is zero. */
  ghost predicate Holds(src: Arrays, a: Arrays, inside: set<Place>, order: seq<nat>, at: Positions)
  {
    && IsOrder(order) && ArePositions(at) && a.Keys == src.Keys && inside <= a.Keys && IsArrays(src)
    && (forall p :: p in a ==> p.comp < |at| && Blank(a[p], order, at[p.comp]))
    && forall p :: p in inside ==> Shows(src[p], a[p], order, at[p.comp])
  }

  /** The scan is legal for the components that it has, it has all their blocks, and a refinement of AC coefficients
      has no others. */
  ghost predicate LegalPass(s: Scan, layout: Layout, inside: set<Place>, order: seq<nat>, at: Positions)
  {
    && s.order == order
    && (forall c :: 0 <= c < |at| && HasComp(layout, c) ==> Legal(s, at[c]))
    && (KindOf(s).AcRefine? ==> forall i, j :: 0 <= i < |layout| && 0 <= j < |layout[i]| ==> layout[i][j] in inside)
    && forall p :: p in inside && HasComp(layout, p.comp) ==> InLayout(layout, p)
  }

  /** One block of the scan finds what it needs. */
  lemma BlockNeeds(s: Scan, layout: Layout, src: Arrays, a: Arrays, inside: set<Place>, order: seq<nat>, at: Positions,
                   i: nat, j: nat)
    requires Holds(src, a, inside, order, at) && LegalPass(s, layout, inside, order, at)
    requires i < |layout| && j < |layout[i]| && layout[i][j] in a
    ensures ValidScan(s) && Needs(s, src[layout[i][j]], a[layout[i][j]])
  {
    hide IsOrder, Needs, Expected, Blank, Shows, ValidScan;
    var p := layout[i][j];
    assert HasComp(layout, p.comp);
    LegalIsValid(s, at[p.comp]);
    HeldArrays(src, a, inside, order, at);
    if KindOf(s).AcRefine? {
      LegalExpected(s, src[p], a[p], at[p.comp]);
      ExpectedNeeded(s, src[p], a[p]);
    } else {
      BlankNeeds(s, src[p], a[p], at[p.comp]);
    }
  }

  lemma LegalIsValid(s: Scan, at: Progress)
    requires Legal(s, at)
    ensures ValidScan(s)
  {
  }

  lemma ExpectedNeeded(s: Scan, x: Block, held: Block)
    requires ValidScan(s) && |x| == |held| == 64 && Expected(s, x, held)
    ensures Needs(s, x, held)
  {
  }

  /** What has become of one block. */
  lemma BlockAfter(s: Scan, layout: Layout, src: Arrays, a: Arrays, inside: set<Place>, order: seq<nat>, at: Positions,
                   i: nat, j: nat, after: Block)
    requires Holds(src, a, inside, order, at) && LegalPass(s, layout, inside, order, at) && ValidScan(s)
    requires i < |layout| && j < |layout[i]| && layout[i][j] in a
    requires ScanDone(s, src[layout[i][j]], a[layout[i][j]], after)
    ensures var p, next := layout[i][j], AdvancedBy(s, layout, at);
      Blank(after, order, next[p.comp]) && (p in inside ==> Shows(src[p], after, order, next[p.comp]))
  {
    hide IsOrder, ScanDone, Blank, Shows, ValidScan, Legal, Advanced;
    var p := layout[i][j];
    assert HasComp(layout, p.comp);
    BlankAfter(s, src[p], a[p], after, at[p.comp]);
    if p in inside {
      ScanAdvances(s, src[p], a[p], after, at[p.comp]);
    }
  }

  /** A block that the scan does not have stays as it is. */
  lemma OtherBlock(s: Scan, layout: Layout, src: Arrays, a: Arrays, inside: set<Place>, order: seq<nat>, at: Positions,
                   p: Place)
    requires Holds(src, a, inside, order, at) && LegalPass(s, layout, inside, order, at) && p in a && !InLayout(layout, p)
    ensures var next := AdvancedBy(s, layout, at);
      Blank(a[p], order, next[p.comp]) && (p in inside ==> Shows(src[p], a[p], order, next[p.comp]))
  {
    if HasComp(layout, p.comp) {
      assert p !in inside;
    }
  }

  lemma PassNeeds(p: Sent, tab: seq<int>, src: Arrays, a: Arrays, inside: set<Place>, order: seq<nat>, at: Positions)
    requires SentFrom(tab, src, p) && Holds(src, a, inside, order, at) && LegalPass(p.s, p.layout, inside, order, at)
    ensures IsArrays(a) && LaidOut(p.s, p.layout, a) && ValidScan(p.s)
    ensures NeedsMet(p.s, Pick(p.layout, src), Pick(p.layout, a))
  {
    hide Holds, LegalPass, ScanParts, CarriesAll, Distinct, Needs;
    HeldArrays(src, a, inside, order, at);
    assert PartCodes(p.s, tab, p.last) by { PartsAreValid(p.s, tab, p.parts, p.last); }
    PickedMcus(p.s, p.layout, src);
    PickedMcus(p.s, p.layout, a);
    forall i, j | 0 <= i < |p.layout| && 0 <= j < |p.s.membership|
      ensures var mcus, held := Pick(p.layout, src), Pick(p.layout, a);
        IsMcu(p.s, mcus[i]) && IsMcu(p.s, held[i]) && Needs(p.s, mcus[i][j], held[i][j])
    {
      assert IsMcu(p.s, Pick(p.layout, src)[i]) && IsMcu(p.s, Pick(p.layout, a)[i]);
      assert p.layout[i][j] in a;
      BlockNeeds(p.s, p.layout, src, a, inside, order, at, i, j);
    }
  }

  lemma HeldArrays(src: Arrays, a: Arrays, inside: set<Place>, order: seq<nat>, at: Positions)
    requires Holds(src, a, inside, order, at)
    ensures IsArrays(src) && IsArrays(a) && src.Keys == a.Keys && ArePositions(at)
  {
  }

  lemma PartsAreValid(s: Scan, tab: seq<int>, parts: seq<Part>, last: Part)
    requires ScanParts(s, tab, parts, last)
    ensures PartCodes(s, tab, last) && ValidScan(s)
  {
  }

  /** Reading a scan takes the arrays to the positions that the scan brings its coefficients to. */
  lemma PassReads(p: Sent, tab: seq<int>, src: Arrays, a: Arrays, inside: set<Place>, order: seq<nat>, at: Positions)
    requires SentFrom(tab, src, p) && Holds(src, a, inside, order, at) && LegalPass(p.s, p.layout, inside, order, at)
    ensures IsArrays(a) && LaidOut(p.s, p.layout, a) && ValidScan(p.s)
    ensures var r := ReadPass(p.s, p.layout, tab, Arrived(p).input, a);
      r.Some? && Holds(src, r.value, inside, order, AdvancedBy(p.s, p.layout, at))
  {
    hide Holds, LegalPass, ScanParts, CarriesAll, NeedsMet, ReadMcus, AllMcus, Closed, Stuff, AllReached, Distinct, LaidOut;
    PassNeeds(p, tab, src, a, inside, order, at);
    var held := Pick(p.layout, a);
    AllNeeds(p.s, p.parts, p.last, held);
    var input := Closed(p.parts) + Stuff(p.last.data) + p.tail;
    ScanReads(p.s, tab, p.parts, p.last, p.tail, held, input);
    PassEnds(p.s, p.layout, src, a, inside, order, at, ReadMcus(p.s, StartScan(p.s, tab, input), held).value);
  }

  lemma PassEnds(s: Scan, layout: Layout, src: Arrays, a: Arrays, inside: set<Place>, order: seq<nat>, at: Positions,
                 after: seq<Mcu>)
    requires Holds(src, a, inside, order, at) && LegalPass(s, layout, inside, order, at)
    requires LaidOut(s, layout, a) && Distinct(layout) && Shaped(s, layout, after)
    requires AllReached(s, Pick(layout, src), Pick(layout, a), after)
    ensures Holds(src, Put(s, layout, after, a), inside, order, AdvancedBy(s, layout, at))
  {
    hide LegalPass, Blank, Shows, IsOrder, AllReached, Pick, Put, LaidOut, Distinct, Shaped, AdvancedBy;
    HeldArrays(src, a, inside, order, at);
    PickedMcus(s, layout, a);
    forall q | q in a
      ensures var b, next := Put(s, layout, after, a), AdvancedBy(s, layout, at);
        q in b && q.comp < |next| && Blank(b[q], order, next[q.comp])
        && (q in inside ==> Shows(src[q], b[q], order, next[q.comp]))
    {
      PlaceEnds(s, layout, src, a, inside, order, at, after, q);
    }
  }

  lemma PlaceEnds(s: Scan, layout: Layout, src: Arrays, a: Arrays, inside: set<Place>, order: seq<nat>, at: Positions,
                  after: seq<Mcu>, q: Place)
    requires Holds(src, a, inside, order, at) && LegalPass(s, layout, inside, order, at) && q in a
    requires LaidOut(s, layout, a) && Distinct(layout) && Shaped(s, layout, after)
    requires AllReached(s, Pick(layout, src), Pick(layout, a), after)
    ensures var b, next := Put(s, layout, after, a), AdvancedBy(s, layout, at);
      q in b && q.comp < |next| && Blank(b[q], order, next[q.comp])
      && (q in inside ==> Shows(src[q], b[q], order, next[q.comp]))
  {
    hide LegalPass, Blank, Shows, IsOrder, AllReached, Pick, Put, LaidOut, Distinct, Shaped, AdvancedBy, InLayout;
    HeldArrays(src, a, inside, order, at);
    if InLayout(layout, q) {
      var i, j := Where(layout, q);
      PutIs(s, layout, after, a, i, j);
      BlockScanned(s, layout, src, a, after, i, j);
      BlockAfter(s, layout, src, a, inside, order, at, i, j, after[i][j]);
    } else {
      OtherBlock(s, layout, src, a, inside, order, at, q);
    }
  }

  lemma Where(layout: Layout, p: Place) returns (i: nat, j: nat)
    requires InLayout(layout, p)
    ensures i < |layout| && j < |layout[i]| && layout[i][j] == p
  {
    i, j :| 0 <= i < |layout| && 0 <= j < |layout[i]| && layout[i][j] == p;
  }

  lemma BlockScanned(s: Scan, layout: Layout, src: Arrays, a: Arrays, after: seq<Mcu>, i: nat, j: nat)
    requires AllReached(s, Pick(layout, src), Pick(layout, a), after) && i < |layout| && j < |layout[i]|
    requires layout[i][j] in src && layout[i][j] in a && |src[layout[i][j]]| == |a[layout[i][j]]| == 64
    ensures ValidScan(s) && i < |after| && j < |after[i]| && ScanDone(s, src[layout[i][j]], a[layout[i][j]], after[i][j])
  {
    hide ScanDone, ValidScan;
    var mcus, held := Pick(layout, src), Pick(layout, a);
    assert IsMcu(s, mcus[i]) && IsMcu(s, held[i]) && McuReached(s, mcus[i], held[i], after[i]);
    assert mcus[i][j] == src[layout[i][j]] && held[i][j] == a[layout[i][j]];
  }

  // ---- Whole scripts ----

  function ArrivedAll(script: seq<Sent>): (r: seq<Received>)
    ensures |r| == |script| && forall i :: 0 <= i < |r| ==> r[i] == Arrived(script[i])
  {
    seq(|script|, i requires 0 <= i < |script| => Arrived(script[i]))
  }

  /** The positions after all scans. */
  ghost function Final(script: seq<Sent>, at: Positions): (r: Positions)
    requires ArePositions(at)
    ensures |r| == |at| && ArePositions(r)
    decreases |script|
  {
    if script == [] then at else Final(script[1..], AdvancedBy(script[0].s, script[0].layout, at))
  }

  ghost predicate LegalScript(script: seq<Sent>, inside: set<Place>, order: seq<nat>, at: Positions)
    requires ArePositions(at)
    decreases |script|
  {
    script != [] ==>
      && LegalPass(script[0].s, script[0].layout, inside, order, at)
      && LegalScript(script[1..], inside, order, AdvancedBy(script[0].s, script[0].layout, at))
  }

  ghost predicate AllSent(tab: seq<int>, src: Arrays, script: seq<Sent>)
  {
    forall i :: 0 <= i < |script| ==> SentFrom(tab, src, script[i])
  }

  lemma AllCanArrive(script: seq<Sent>, tab: seq<int>, src: Arrays)
    requires AllSent(tab, src, script)
    ensures CanReceive(ArrivedAll(script), src.Keys)
  {
    forall i | 0 <= i < |script|
      ensures CanReceiveOne(ArrivedAll(script)[i], src.Keys)
    {
      var p := script[i];
      assert SentFrom(tab, src, p);
      PartsAreValid(p.s, tab, p.parts, p.last);
    }
  }

  /** Decoding the bytes of every scan of a legal script, one after the other, succeeds, and brings every block of the
      picture to the positions of the script. */
  lemma {:induction false} ScriptReads(script: seq<Sent>, tab: seq<int>, src: Arrays, a: Arrays, inside: set<Place>,
                                       order: seq<nat>, at: Positions)
    requires AllSent(tab, src, script) && Holds(src, a, inside, order, at) && LegalScript(script, inside, order, at)
    ensures IsArrays(a) && CanReceive(ArrivedAll(script), a.Keys)
    ensures var r := ReadScript(tab, ArrivedAll(script), a);
      r.Some? && Holds(src, r.value, inside, order, Final(script, at))
    decreases |script|
  {
    hide Holds, SentFrom, LegalPass, ReadPass, CanReceiveOne, AdvancedBy, IsArrays, ArePositions;
    HeldArrays(src, a, inside, order, at);
    AllCanArrive(script, tab, src);
    if script != [] {
      var p, rest := script[0], script[1..];
      assert SentFrom(tab, src, p);
      PassReads(p, tab, src, a, inside, order, at);
      var b := ReadPass(p.s, p.layout, tab, Arrived(p).input, a).value;
      assert ArrivedAll(script)[1..] == ArrivedAll(rest);
      ScriptReads(rest, tab, src, b, inside, order, AdvancedBy(p.s, p.layout, at));
    }
  }

  // ---- From nothing to the whole picture ----

  /** The arrays as the memory manager hands them out. */
  function Zeros(places: set<Place>): (a: Arrays)
    ensures a.Keys == places && IsArrays(a)
  {
    map p | p in places :: seq(64, i => 0)
  }

  function Unsent(n: nat): (at: Positions)
    ensures |at| == n && ArePositions(at) && forall c :: 0 <= c < n ==> AllAt(at[c], -1)
  {
    seq<Progress>(n, c => seq<int>(64, k => -1))
  }

  lemma NothingSent(src: Arrays, inside: set<Place>, order: seq<nat>, n: nat)
    requires IsOrder(order) && IsArrays(src) && inside <= src.Keys && forall p :: p in src ==> p.comp < n
    ensures Holds(src, Zeros(src.Keys), inside, order, Unsent(n))
  {
  }

  /** The coefficients of this component have been sent to the last bit. */
  ghost predicate Complete(at: Positions, c: nat)
  {
    c < |at| && AllAt(at[c], 0)
  }

  /** A script that brings all coefficients of all components to position 0 gives back every block of the picture. */
  lemma CompleteScript(script: seq<Sent>, tab: seq<int>, src: Arrays, inside: set<Place>, order: seq<nat>, n: nat)
    requires IsOrder(order) && IsArrays(src) && inside <= src.Keys && forall p :: p in src ==> p.comp < n
    requires AllSent(tab, src, script) && LegalScript(script, inside, order, Unsent(n))
    requires forall p :: p in inside ==> Complete(Final(script, Unsent(n)), p.comp)
    ensures CanReceive(ArrivedAll(script), src.Keys)
    ensures var r := ReadScript(tab, ArrivedAll(script), Zeros(src.Keys));
      r.Some? && forall p :: p in inside ==> p in r.value && r.value[p] == src[p]
  {
    hide ReadScript, LegalScript, AllSent, CanReceive, Final, Shows, Blank;
    NothingSent(src, inside, order, n);
    ScriptReads(script, tab, src, Zeros(src.Keys), inside, order, Unsent(n));
    var b := ReadScript(tab, ArrivedAll(script), Zeros(src.Keys)).value;
    forall p | p in inside
      ensures p in b && b[p] == src[p]
    {
      assert Complete(Final(script, Unsent(n)), p.comp);
      CompleteBlock(src[p], b[p], order, Final(script, Unsent(n))[p.comp]);
    }
  }
}
