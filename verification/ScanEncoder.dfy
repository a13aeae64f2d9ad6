/** The entropy encoder over a whole scan: predictions, restart intervals, and the bytes they leave behind. */
module ScanEncoder {
  import opened Numbers
  import opened AriTable
  import opened IntervalCoder
  import opened ArithRegisters
  import opened ArithFinish
  import opened ArithEncoder
  import opened JpegScan
  import opened McuCoding
  import opened McuEncoder
  import opened ScanCoding
  import opened ScanDecoding
  import opened ScanRoundTrip

  /** The statistics areas that start_pass clears for the scan, and the fixed bin. */
  function LiveAreas(s: Scan): set<Area>
  {
    {FixedArea}
    + (if CodesDc(s) then set i | 0 <= i < |s.comps| :: DcArea(s.comps[i].dcTbl) else {})
    + (if s.se != 0 then set i | 0 <= i < |s.comps| :: AcArea(s.comps[i].acTbl) else {})
  }

  /** Scans that code DC differences; the others leave the predictions alone. */
  predicate CodesDc(s: Scan)
  {
    s.ss == 0 && s.ah == 0
  }

  class EntropyEncoder {
    const scan: Scan
    const e: Encoder
    const lastDcVal: array<int>
    const dcContext: array<nat>
    var restartsToGo: nat
    var nextRestartNum: nat

    // What had been sent before the scan, the MCUs coded since the last restart, and the finished segments before it.
    ghost const base: seq<byte>
    ghost var mcus: seq<Mcu>
    ghost var parts: seq<Part>

    ghost predicate Predictions(preds: seq<Prediction>)
      reads lastDcVal, dcContext
    {
      && |preds| == lastDcVal.Length == dcContext.Length
      && forall ci :: 0 <= ci < |preds| ==>
           && preds[ci] == Prediction(lastDcVal[ci], dcContext[ci])
           && -0x8000 <= lastDcVal[ci] < 0x8000 && dcContext[ci] <= 16
    }

    ghost predicate Parts()
      reads this
    {
      && ValidScan(scan) && SoundTable(e.tab)
      && AreMcus(scan, mcus)
      && (forall p :: p in parts ==> FullPart(scan, e.tab, p))
      && (scan.restartInterval > 0 ==>
            |mcus| + restartsToGo == scan.restartInterval && nextRestartNum == |parts| % 8)
      && (scan.restartInterval == 0 ==> parts == [])
    }

    ghost predicate Consistent()
      reads this, lastDcVal, dcContext, e, e.dcStats, e.acStats, e.fixedBin
    {
      && Parts() && e.Valid()
      && e.live == LiveAreas(scan)
      && e.prior == base + Closed(parts)
      && e.history == CodeMcus(scan, mcus).h
      && lastDcVal.Length == dcContext.Length == |scan.comps|
      && (CodesDc(scan) ==> Predictions(CodeMcus(scan, mcus).preds))
    }

    /** Between MCUs, a segment is closed only when another MCU follows. */
    ghost predicate Valid()
      reads this, lastDcVal, dcContext, e, e.dcStats, e.acStats, e.fixedBin
    {
      Consistent() && (parts != [] ==> mcus != [])
    }

    /** MEMZERO of the areas in use, and of the predictions when the scan codes DC values. */
    method ClearStatistics()
      requires ValidScan(scan) && e.Areas() && lastDcVal.Length == dcContext.Length == |scan.comps|
      modifies e.dcStats, e.acStats, lastDcVal, dcContext
      ensures forall t, i :: 0 <= t < 16 && 0 <= i < 64 && DcArea(t) in LiveAreas(scan) ==> e.dcStats[t, i] == 0
      ensures forall t, i :: 0 <= t < 16 && 0 <= i < 256 && AcArea(t) in LiveAreas(scan) ==> e.acStats[t, i] == 0
      ensures CodesDc(scan) ==> forall ci :: 0 <= ci < |scan.comps| ==> lastDcVal[ci] == 0 && dcContext[ci] == 0
      ensures !(CodesDc(scan)) ==> lastDcVal[..] == old(lastDcVal[..]) && dcContext[..] == old(dcContext[..])
    {
      var dc, ac := CodesDc(scan), scan.se != 0;
      for ci := 0 to |scan.comps|
        invariant dc ==> forall j, i :: 0 <= j < ci && 0 <= i < 64 ==> e.dcStats[scan.comps[j].dcTbl, i] == 0
        invariant ac ==> forall j, i :: 0 <= j < ci && 0 <= i < 256 ==> e.acStats[scan.comps[j].acTbl, i] == 0
        invariant dc ==> forall j :: 0 <= j < ci ==> lastDcVal[j] == 0 && dcContext[j] == 0
        invariant !dc ==> lastDcVal[..] == old(lastDcVal[..]) && dcContext[..] == old(dcContext[..])
      {
        if dc {
          e.ClearDc(scan.comps[ci].dcTbl);
          lastDcVal[ci] := 0;
          dcContext[ci] := 0;
        }
        if ac {
          e.ClearAc(scan.comps[ci].acTbl);
        }
      }
    }

    /** start_pass: the scan goes behind whatever has been sent. */
    constructor (scan: Scan, e: Encoder)
      requires ValidScan(scan) && e.Areas() && e.fixedBin[0] == 113
      modifies e, e.dcStats, e.acStats
      ensures Valid() && this.scan == scan && this.e == e && base == old(e.out) && Accepted() == []
      ensures fresh(lastDcVal) && fresh(dcContext)
    {
      this.scan, this.e, base := scan, e, e.out;
      lastDcVal := new int[|scan.comps|];
      dcContext := new nat[|scan.comps|];
      restartsToGo, nextRestartNum := scan.restartInterval, 0;
      mcus, parts := [], [];
      new;
      ClearStatistics();
      e.Reset(LiveAreas(scan));
      assert base + Closed([]) == base;
    }

    /** The coder stands after c, with the statistics and the predictions of the scan. */
    ghost predicate Stands(c: Coded)
      reads this, lastDcVal, dcContext, e, e.dcStats, e.acStats, e.fixedBin
    {
      && ValidScan(scan) && e.Valid() && e.live == LiveAreas(scan) && e.history == c.h
      && |c.preds| == |scan.comps|
      && lastDcVal.Length == dcContext.Length == |scan.comps|
      && (CodesDc(scan) ==> Predictions(c.preds))
    }

    /** Figures F.6 to F.9: sign and magnitude of a nonzero difference, and the next conditioning context. */
    method EncodeDifference(ci: nat, tbl: nat, st0: nat, diff: int)
      requires e.Valid() && DcArea(tbl) in e.live && tbl < |scan.dcL| == |scan.dcU| == 16
      requires ci < dcContext.Length && st0 <= 16 && 0 < Abs(diff) <= 0x1_0000
      modifies e, e.dcStats, e.acStats, e.fixedBin, dcContext
      ensures var c := CodeDifference(old(e.history), tbl, st0, diff);
        && e.history == c.h
        && dcContext[..] == old(dcContext[..])[ci := DcContext(c.m, diff < 0, scan.dcL[tbl], scan.dcU[tbl])]
      ensures e.Valid() && e.prior == old(e.prior) && e.live == old(e.live)
    {
      hide Encoder.Valid, FinishMagnitude, DcCategory;
      var v, st := diff, st0;
      if v > 0 {
        Emit(e, DcArea(tbl), st + 1, false);
        st := st + 2;
        dcContext[ci] := 4;
      } else {
        v := -v;
        Emit(e, DcArea(tbl), st + 1, true);
        st := st + 3;
        dcContext[ci] := 8;
      }
      var m := EmitDcMagnitude(e, tbl, st, v - 1);
      if m < Pow2(scan.dcL[tbl]) / 2 {
        dcContext[ci] := 0;
      } else if m > Pow2(scan.dcU[tbl]) / 2 {
        dcContext[ci] := dcContext[ci] + 8;
      }
    }

    /** Figure F.4: the DC value of one block against its prediction. */
    method EncodeDc(ci: nat, dc: int, ghost c: Coded)
      requires Stands(c) && CodesDc(scan) && ci < |scan.comps| && -0x8000 <= dc < 0x8000
      modifies e, e.dcStats, e.acStats, e.fixedBin, lastDcVal, dcContext
      ensures var tbl := scan.comps[ci].dcTbl;
        var d := CodeDc(c.h, tbl, c.preds[ci], dc, scan.dcL[tbl], scan.dcU[tbl]);
        Stands(Coded(d.h, c.preds[ci := d.p]))
      ensures e.prior == old(e.prior)
    {
      hide Encoder.Valid, CodeDifference, KindOf, IsOrder;
      var tbl := scan.comps[ci].dcTbl;
      assert DcArea(tbl) in e.live;
      var st := dcContext[ci];
      var v := dc - lastDcVal[ci];
      if v == 0 {
        Emit(e, DcArea(tbl), st, false);
        dcContext[ci] := 0;
      } else {
        lastDcVal[ci] := dc;
        Emit(e, DcArea(tbl), st, true);
        EncodeDifference(ci, tbl, st, v);
      }
    }

    lemma LiveTables(ci: nat)
      requires ValidScan(scan) && ci < |scan.comps|
      ensures FixedArea in LiveAreas(scan)
      ensures CodesDc(scan) ==> DcArea(scan.comps[ci].dcTbl) in LiveAreas(scan)
      ensures scan.se != 0 ==> AcArea(scan.comps[ci].acTbl) in LiveAreas(scan)
    {
    }

    /** encode_mcu: every block's DC value, then its AC coefficients. */
    method EncodeSequential(mcu: Mcu, ghost c: Coded)
      requires Stands(c) && KindOf(scan).Sequential? && Codes(scan, c, mcu)
      requires forall j :: 0 <= j < |mcu| ==> IsBlock(mcu[j])
      modifies e, e.dcStats, e.acStats, e.fixedBin, lastDcVal, dcContext
      ensures Stands(CodeMcu(scan, c, mcu)) && e.prior == old(e.prior)
    {
      hide Encoder.Valid, CodeAc, CodeDc, Predictions, Scanned;
      for blkn := 0 to |mcu|
        invariant Stands(CodeBlocks(scan, c, mcu, blkn)) && e.prior == old(e.prior)
      {
        ghost var now := CodeBlocks(scan, c, mcu, blkn);
        var ci := scan.membership[blkn];
        assert IsBlock(mcu[blkn]);
        EncodeDc(ci, mcu[blkn][0], now);
        if scan.limSe != 0 {
          LiveTables(ci);
          var tbl := scan.comps[ci].acTbl;
          EmitAc(e, tbl, scan.acK[tbl], 1, scan.limSe, 0, mcu[blkn], scan.order);
        }
      }
    }

    /** encode_mcu_DC_first. */
    method EncodeDcFirst(mcu: Mcu, ghost c: Coded)
      requires Stands(c) && KindOf(scan).DcFirst? && Codes(scan, c, mcu)
      requires forall j :: 0 <= j < |mcu| ==> IsBlock(mcu[j])
      modifies e, e.dcStats, e.acStats, e.fixedBin, lastDcVal, dcContext
      ensures Stands(CodeMcu(scan, c, mcu)) && e.prior == old(e.prior)
    {
      hide Encoder.Valid, CodeDc, Predictions;
      for blkn := 0 to |mcu|
        invariant Stands(CodeBlocks(scan, c, mcu, blkn)) && e.prior == old(e.prior)
      {
        assert IsBlock(mcu[blkn]);
        ShiftBound(mcu[blkn][0], scan.al);
        EncodeDc(scan.membership[blkn], mcu[blkn][0] / Pow2(scan.al), CodeBlocks(scan, c, mcu, blkn));
      }
    }

    /** encode_mcu_AC_first: the single block of the MCU. */
    method EncodeAcFirst(mcu: Mcu, ghost c: Coded)
      requires Stands(c) && KindOf(scan).AcFirst? && Codes(scan, c, mcu) && IsBlock(mcu[0])
      modifies e, e.dcStats, e.acStats, e.fixedBin
      ensures Stands(CodeMcu(scan, c, mcu)) && e.prior == old(e.prior)
    {
      hide Encoder.Valid, CodeAc, Scanned;
      LiveTables(0);
      var tbl := scan.comps[0].acTbl;
      EmitAc(e, tbl, scan.acK[tbl], scan.ss, scan.se, scan.al, mcu[0], scan.order);
      assert CodeBlocks(scan, c, mcu, 0) == c;
    }

    /** encode_mcu_DC_refine: the bit at position al of each DC value. */
    method EncodeDcRefine(mcu: Mcu, ghost c: Coded)
      requires Stands(c) && KindOf(scan).DcRefine? && Codes(scan, c, mcu)
      modifies e, e.dcStats, e.acStats, e.fixedBin
      ensures Stands(CodeMcu(scan, c, mcu)) && e.prior == old(e.prior)
    {
      hide Encoder.Valid;
      for blkn := 0 to |mcu|
        invariant Stands(CodeBlocks(scan, c, mcu, blkn)) && e.prior == old(e.prior)
      {
        LiveTables(0);
        Emit(e, FixedArea, 0, mcu[blkn][0] / Pow2(scan.al) % 2 == 1);
      }
    }

    method EncodeAcRefine(mcu: Mcu, ghost c: Coded)
      requires Stands(c) && KindOf(scan).AcRefine? && Codes(scan, c, mcu) && IsBlock(mcu[0])
      modifies e, e.dcStats, e.acStats, e.fixedBin
      ensures Stands(CodeMcu(scan, c, mcu)) && e.prior == old(e.prior)
    {
      hide Encoder.Valid, RefineAc, Scanned;
      LiveTables(0);
      EmitRefinement(e, scan.comps[0].acTbl, scan.ss, scan.se, scan.ah, scan.al, mcu[0], scan.order);
      assert CodeBlocks(scan, c, mcu, 0) == c;
    }

    /** The end of a segment: its last bytes and the restart marker. */
    method CloseSegment(restartNum: nat) returns (ghost p: Part)
      requires Consistent() && restartNum == |parts| % 8
      modifies e`out, e`data, e`c, e`zc, e`sc
      ensures PartCodes(scan, e.tab, p) && p.mcus == mcus
      ensures e.out == base + Marked(parts, p)
    {
      hide CodeMcus, Represents, Stuff, Closed, KindOf;
      e.FinishPass();
      p := Part(mcus, e.history, e.data);
      e.EmitByte(0xFF);
      e.EmitByte(0xD0 + restartNum);
      MarkedBehind(base, parts, p);
    }

    /** emit_restart: closes the segment with a marker, clears the statistics and starts the next one. */
    method EmitRestart(restartNum: nat) returns (ghost p: Part)
      requires Consistent() && restartNum == |parts| % 8
      modifies e, e.dcStats, e.acStats, lastDcVal, dcContext
      ensures PartCodes(scan, e.tab, p) && p.mcus == mcus
      ensures e.prior == base + Marked(parts, p)
      ensures Stands(StartCoded(scan))
    {
      hide CodeMcus, Represents, Marked, Closed, KindOf, PartCodes;
      FixedStays(e.tab, e.history, 0);
      assert e.fixedBin[0] == 113;
      p := CloseSegment(restartNum);
      ClearStatistics();
      e.Reset(LiveAreas(scan));
    }

    /** All MCUs coded since the start of the scan. */
    ghost function Accepted(): seq<Mcu>
      reads this
    {
      AllMcus(parts, Part(mcus, [], []))
    }

    /** The encoding routine that start_pass selected. */
    method EncodeBody(mcu: Mcu, ghost c: Coded)
      requires Stands(c) && Codes(scan, c, mcu) && forall j :: 0 <= j < |mcu| ==> IsBlock(mcu[j])
      modifies e, e.dcStats, e.acStats, e.fixedBin, lastDcVal, dcContext
      ensures Stands(CodeMcu(scan, c, mcu)) && e.prior == old(e.prior)
    {
      hide CodeMcu, Stands;
      match KindOf(scan)
      case Sequential => EncodeSequential(mcu, c);
      case DcFirst => EncodeDcFirst(mcu, c);
      case AcFirst => EncodeAcFirst(mcu, c);
      case DcRefine => EncodeDcRefine(mcu, c);
      case AcRefine => EncodeAcRefine(mcu, c);
    }

    /** if (restarts_to_go == 0) emit a restart marker and start a new interval. */
    method RestartIfDue()
      requires Consistent() && scan.restartInterval != 0
      modifies this`mcus, this`parts, this`restartsToGo, this`nextRestartNum
      modifies e, e.dcStats, e.acStats, lastDcVal, dcContext
      ensures Consistent() && restartsToGo > 0 && Accepted() == old(Accepted())
    {
      hide CodeMcus, Encoder.Valid, Predictions, KindOf, IsOrder, Closed, Represents;
      if restartsToGo == 0 {
        ghost var p := EmitRestart(nextRestartNum);
        restartsToGo := scan.restartInterval;
        nextRestartNum := (nextRestartNum + 1) % 8;
        NextRestart(|parts|);
        ClosedSnoc(parts, p);
        StartsEmpty(scan);
        AllMcusSnoc(parts, p, Part([], [], []));
        AllMcusLast(parts, p, Part(mcus, [], []));
        mcus, parts := [], parts + [p];
      }
    }

    /** encode_mcu through the entropy object: a restart when one is due, then the MCU. */
    method EncodeMcu(mcu: Mcu)
      requires Valid() && IsMcu(scan, mcu) && forall j :: 0 <= j < |mcu| ==> IsBlock(mcu[j])
      modifies this`mcus, this`parts, this`restartsToGo, this`nextRestartNum
      modifies e, e.dcStats, e.acStats, e.fixedBin, lastDcVal, dcContext
      ensures Valid() && Accepted() == old(Accepted()) + [mcu]
    {
      hide CodeMcus, CodeMcu, Encoder.Valid, Predictions, KindOf, IsOrder, Closed, FullPart, AllMcus;
      if scan.restartInterval != 0 {
        RestartIfDue();
        restartsToGo := restartsToGo - 1;
      }
      CodeMcusSnoc(scan, mcus, mcu);
      EncodeBody(mcu, CodeMcus(scan, mcus));
      AllMcusPut(parts, mcus, mcu);
      mcus := mcus + [mcu];
    }

    /** finish_pass at the end of the scan: its segments and the bytes that hold them. */
    method FinishScan() returns (ghost last: Part)
      requires Valid()
      modifies e`out, e`data, e`c, e`zc, e`sc
      ensures ScanParts(scan, e.tab, parts, last) && AllMcus(parts, last) == Accepted()
      ensures e.out == base + (Closed(parts) + Stuff(last.data)) && e.fixedBin[0] == 113
      ensures forall tail, held :: ReadsBack(scan, e.tab, parts, last, tail, held)
    {
      hide CodeMcus, Represents, Stuff, Closed, KindOf;
      FixedStays(e.tab, e.history, 0);
      e.FinishPass();
      last := Part(mcus, e.history, e.data);
      AllMcusLast(parts, last, Part(mcus, [], []));
      EveryScanReads(scan, e.tab, parts, last);
    }
  }

  lemma MarkedBehind(base: seq<byte>, done: seq<Part>, p: Part)
    ensures base + Closed(done) + Stuff(p.data) + [0xFF] + [0xD0 + |done| % 8] == base + Marked(done, p)
  {
    hide Closed, Stuff;
    FiveTogether(base, Closed(done), Stuff(p.data), 0xFF, 0xD0 + |done| % 8);
  }

  lemma FiveTogether(a: seq<byte>, b: seq<byte>, c: seq<byte>, x: byte, y: byte)
    ensures a + b + c + [x] + [y] == a + (b + c + [x, y])
  {
  }

  /** A scan as it is coded: a fresh entropy encoder, all MCUs, and the end of the pass. */
  method EncodeScan(scan: Scan, e: Encoder, mcus: seq<Mcu>) returns (ghost parts: seq<Part>, ghost last: Part)
    requires ValidScan(scan) && AreMcus(scan, mcus) && forall i, j :: 0 <= i < |mcus| && 0 <= j < |mcus[i]| ==> IsBlock(mcus[i][j])
    requires e.Areas() && e.fixedBin[0] == 113
    modifies e, e.dcStats, e.acStats, e.fixedBin
    ensures ScanParts(scan, e.tab, parts, last) && AllMcus(parts, last) == mcus
    ensures e.out == old(e.out) + (Closed(parts) + Stuff(last.data)) && e.fixedBin[0] == 113
    ensures forall tail, held :: ReadsBack(scan, e.tab, parts, last, tail, held)
  {
    hide EntropyEncoder.Consistent, AllMcus, ScanParts, ReadsBack;
    var entropy := new EntropyEncoder(scan, e);
    for i := 0 to |mcus|
      invariant entropy.Valid() && entropy.Accepted() == mcus[..i]
    {
      assert IsMcu(scan, mcus[i]);
      entropy.EncodeMcu(mcus[i]);
    }
    last := entropy.FinishScan();
    parts := entropy.parts;
  }

  /** Any decoder that is given the bytes of the scan, and that holds what the scan expects of it, recovers the MCUs. */
  ghost predicate ReadsBack(s: Scan, tab: seq<int>, parts: seq<Part>, last: Part, tail: seq<byte>, held: seq<Mcu>)
  {
    StartsWithMarker(tail) && AllFit(s, parts, last, held) ==>
      && ValidScan(s) && AreMcus(s, held)
      && var r := ReadMcus(s, StartScan(s, tab, Closed(parts) + Stuff(last.data) + tail), held);
      && r.Some? && AllReached(s, AllMcus(parts, last), held, r.value)
  }

  lemma EveryScanReads(s: Scan, tab: seq<int>, parts: seq<Part>, last: Part)
    requires ScanParts(s, tab, parts, last)
    ensures forall tail, held :: ReadsBack(s, tab, parts, last, tail, held)
  {
    forall tail, held
      ensures ReadsBack(s, tab, parts, last, tail, held)
    {
      if StartsWithMarker(tail) && AllFit(s, parts, last, held) {
        ScanReads(s, tab, parts, last, tail, held, Closed(parts) + Stuff(last.data) + tail);
      }
    }
  }

  lemma StartsEmpty(s: Scan)
    requires ValidScan(s)
    ensures AreMcus(s, []) && CodeMcus(s, []) == StartCoded(s)
  {
  }

  lemma CodeMcusSnoc(s: Scan, mcus: seq<Mcu>, mcu: Mcu)
    requires ValidScan(s) && AreMcus(s, mcus) && IsMcu(s, mcu)
    ensures AreMcus(s, mcus + [mcu]) && CodeMcus(s, mcus + [mcu]) == CodeMcu(s, CodeMcus(s, mcus), mcu)
  {
    hide CodeMcu;
    var all := mcus + [mcu];
    assert all[..|all| - 1] == mcus;
  }

  lemma {:induction false} AllMcusSnoc(parts: seq<Part>, p: Part, last: Part)
    ensures AllMcus(parts + [p], last) == AllMcus(parts, p) + last.mcus
    decreases |parts|
  {
    if parts != [] {
      assert (parts + [p])[1..] == parts[1..] + [p];
      AllMcusSnoc(parts[1..], p, last);
    }
  }

  /** Only the MCUs of the last part matter. */
  lemma {:induction false} AllMcusLast(parts: seq<Part>, p: Part, q: Part)
    requires p.mcus == q.mcus
    ensures AllMcus(parts, p) == AllMcus(parts, q)
    decreases |parts|
  {
    if parts != [] {
      AllMcusLast(parts[1..], p, q);
    }
  }

  lemma {:induction false} AllMcusPut(parts: seq<Part>, mcus: seq<Mcu>, mcu: Mcu)
    ensures AllMcus(parts, Part(mcus + [mcu], [], [])) == AllMcus(parts, Part(mcus, [], [])) + [mcu]
    decreases |parts|
  {
    if parts != [] {
      AllMcusPut(parts[1..], mcus, mcu);
    }
  }

  lemma ShiftBound(x: int, al: nat)
    requires -0x8000 <= x < 0x8000
    ensures -0x8000 <= x / Pow2(al) < 0x8000
  {
    var p := Pow2(al);
    if x >= 0 {
      DivAtMost(x, p);
    } else {
      var q, r := x / p, x % p;
      assert x == q * p + r;
      if q < -0x8000 {
        MulMono(q, -0x8001, p);
      }
      if q >= 0 {
        MulMono(0, q, p);
      }
    }
  }
}
