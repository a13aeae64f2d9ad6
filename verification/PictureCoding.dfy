/** A picture coded scan by scan into one file, and what decoding that file gives. */
module PictureCoding {
  import opened Numbers
  import opened AriTable
  import opened IntervalCoder
  import opened ArithRegisters
  import opened ArithEncoder
  import opened JpegScan
  import opened ScanCoding
  import opened ScanRoundTrip
  import opened ScanEncoder
  import opened BinRanges
  import opened ProgressiveScript
  import opened ScriptDecoding
  import opened PictureScans
  import G = McuGeometry
  import O = McuOrder

  /** 16-bit coefficients, and a DC value of at most 2^14 in magnitude. */
  ghost predicate Small(b: Block)
  {
    IsBlock(b) && Abs(b[0]) <= 0x4000
  }

  ghost predicate SmallBlocks(dct: G.Dct)
  {
    forall ci, row, y, x :: Small(dct(ci, row, y, x))
  }

  /** Dummy blocks are as small as the blocks they repeat. */
  lemma {:induction false} SmallPadded(p: G.Picture, dct: G.Dct, c: G.Component, row: nat, col: nat)
    requires G.ValidPicture(p) && c.h > 0 && c.v > 0 && SmallBlocks(dct)
    ensures Small(G.Padded(p, dct, c, row, col))
    decreases row, col
  {
    hide Small, G.HeightInBlocks, G.WidthInBlocks, G.Dummy;
    if row < G.HeightInBlocks(p, c) {
      if col < G.WidthInBlocks(p, c) || col == 0 {
        SmallReal(dct, c, row, col);
      } else {
        SmallPadded(p, dct, c, row, col - 1);
        SmallDummy(G.Padded(p, dct, c, row, col - 1));
      }
    } else if row > 0 {
      SmallPadded(p, dct, c, row - 1, col / c.h * c.h + c.h - 1);
      SmallDummy(G.Padded(p, dct, c, row - 1, col / c.h * c.h + c.h - 1));
    } else {
      ZeroIsSmall();
    }
  }

  lemma SmallReal(dct: G.Dct, c: G.Component, row: nat, col: nat)
    requires c.v > 0 && SmallBlocks(dct)
    ensures Small(G.RealBlock(dct, c, row, col))
  {
    assert Small(dct(c.index, row / c.v, row % c.v * c.dctV, col * c.dctH));
  }

  lemma SmallDummy(b: Block)
    requires Small(b)
    ensures Small(G.Dummy(b[0]))
  {
  }

  lemma ZeroIsSmall()
    ensures Small(G.Dummy(0))
  {
  }

  /** All blocks of these MCUs are small. */
  ghost predicate SmallMcus(s: Scan, mcus: seq<Mcu>)
  {
    AreMcus(s, mcus) && forall i, j :: 0 <= i < |mcus| && 0 <= j < |mcus[i]| ==> Small(mcus[i][j])
  }

  lemma ControllerSmall(p: G.Picture, dct: G.Dct, x: Plan)
    requires G.ValidPicture(p) && Describes(p, x) && SmallBlocks(dct)
    ensures SmallMcus(x.s, O.AllMcus(p, dct, x.comps))
  {
    hide LayoutOf, SourceArrays, InArray, InPicture, ValidScan, Distinct, G.Padded, Small, SmallBlocks, O.AllMcus;
    var layout, src := LayoutOf(p, x.comps), SourceArrays(p, dct);
    WholeLayout(p, dct, x.comps);
    forall i | 0 <= i < |layout|
      ensures |layout[i]| == |x.s.membership|
    {
      LayoutSizes(p, x.comps, i);
    }
    forall i, j | 0 <= i < |layout| && 0 <= j < |layout[i]|
      ensures layout[i][j] in src && Small(src[layout[i][j]]) && |src[layout[i][j]]| == 64
    {
      LayoutInArray(p, x.comps, i, j);
      SmallSource(p, dct, layout[i][j]);
    }
    PickedMcus(x.s, layout, src);
  }

  lemma SmallSource(p: G.Picture, dct: G.Dct, q: Place)
    requires G.ValidPicture(p) && InArray(p, q) && SmallBlocks(dct)
    ensures Small(SourceArrays(p, dct)[q])
  {
    SmallPadded(p, dct, p.comps[q.comp], q.row, q.col);
  }

  /** However small MCUs are divided into restart intervals, all of them can be carried. */
  lemma {:induction false} SmallParts(s: Scan, parts: seq<Part>, last: Part)
    requires ValidScan(s) && SmallMcus(s, AllMcus(parts, last))
    ensures CarriesAll(s, parts, last)
    decreases |parts|
  {
    hide Carries, ValidScan, IsBlock;
    if parts == [] {
      SmallCarried(s, last.mcus);
    } else {
      var m, rest := parts[0].mcus, AllMcus(parts[1..], last);
      var all := AllMcus(parts, last);
      forall i | 0 <= i < |m|
        ensures m[i] == all[i] && IsMcu(s, m[i])
      {
        assert IsMcu(s, all[i]);
      }
      forall i | 0 <= i < |rest|
        ensures rest[i] == all[|m| + i] && IsMcu(s, rest[i])
      {
        assert IsMcu(s, all[|m| + i]);
      }
      SmallCarried(s, m);
      SmallParts(s, parts[1..], last);
      assert forall p :: p in parts ==> p == parts[0] || p in parts[1..];
    }
  }

  // ---- The file ----

  /** A scan of the script, and the markers and headers before its data. */
  datatype Job = Job(header: seq<byte>, plan: Plan)

  predicate IsHeader(h: seq<byte>)
  {
    |h| >= 2 && StartsWithMarker(h)
  }

  /** The scans, each behind its header, follow one another to the end of the file: what follows the data of one is the
      rest of the file. */
  ghost predicate InFile(file: seq<byte>, jobs: seq<Job>, scans: seq<PictureScan>, trailer: seq<byte>)
    decreases |jobs|
  {
    && |scans| == |jobs|
    && if jobs == [] then file == trailer
       else
         && scans[0].plan == jobs[0].plan
         && file == jobs[0].header + (Closed(scans[0].parts) + Stuff(scans[0].last.data) + scans[0].tail)
         && InFile(scans[0].tail, jobs[1..], scans[1..], trailer)
  }

  ghost predicate CanCode(p: G.Picture, jobs: seq<Job>)
  {
    forall i :: 0 <= i < |jobs| ==> Describes(p, jobs[i].plan) && IsHeader(jobs[i].header)
  }

  method EmitAll(e: Encoder, bytes: seq<byte>)
    modifies e`out
    ensures e.out == old(e.out) + bytes
  {
    for i := 0 to |bytes|
      invariant e.out == old(e.out) + bytes[..i]
    {
      e.EmitByte(bytes[i]);
      assert bytes[..i + 1] == bytes[..i] + [bytes[i]];
    }
    assert bytes[..|bytes|] == bytes;
  }

  /** One scan: its header, and all MCUs that the controller hands over. */
  method CodeJob(p: G.Picture, dct: G.Dct, e: Encoder, job: Job) returns (ghost parts: seq<Part>, ghost last: Part)
    requires G.ValidPicture(p) && SmallBlocks(dct) && Describes(p, job.plan)
    requires e.Areas() && e.fixedBin[0] == 113
    modifies e, e.dcStats, e.acStats, e.fixedBin
    ensures e.out == old(e.out) + (job.header + (Closed(parts) + Stuff(last.data))) && e.fixedBin[0] == 113
    ensures ScanParts(job.plan.s, e.tab, parts, last) && AllMcus(parts, last) == O.AllMcus(p, dct, job.plan.comps)
    ensures CarriesAll(job.plan.s, parts, last)
  {
    hide ValidScan, O.AllMcus, ScanParts, Closed, Stuff, Small, SmallBlocks, IsBlock, CarriesAll, ReadsBack;
    EmitAll(e, job.header);
    var mcus := O.AllMcus(p, dct, job.plan.comps);
    ControllerSmall(p, dct, job.plan);
    SmallAreBlocks(job.plan.s, mcus);
    parts, last := EncodeScan(job.plan.s, e, mcus);
    SmallParts(job.plan.s, parts, last);
  }

  lemma SmallAreBlocks(s: Scan, mcus: seq<Mcu>)
    requires SmallMcus(s, mcus)
    ensures AreMcus(s, mcus) && forall i, j :: 0 <= i < |mcus| && 0 <= j < |mcus[i]| ==> IsBlock(mcus[i][j])
  {
  }

  /** All scans of a script into one file. */
  method CodePicture(p: G.Picture, dct: G.Dct, e: Encoder, jobs: seq<Job>, trailer: seq<byte>)
      returns (ghost file: seq<byte>, ghost scans: seq<PictureScan>)
    requires G.ValidPicture(p) && SmallBlocks(dct) && CanCode(p, jobs) && StartsWithMarker(trailer)
    requires e.Areas() && e.fixedBin[0] == 113
    modifies e, e.dcStats, e.acStats, e.fixedBin
    ensures e.out == old(e.out) + file && InFile(file, jobs, scans, trailer)
    ensures AllScansSent(p, dct, e.tab, scans) && (if jobs == [] then file == trailer else StartsWithMarker(file))
    decreases |jobs|
  {
    hide Describes, SmallBlocks, ScanParts, CarriesAll, O.AllMcus, Closed, Stuff;
    if jobs == [] {
      EmitAll(e, trailer);
      file, scans := trailer, [];
    } else {
      ghost var parts, last := CodeJob(p, dct, e, jobs[0]);
      ghost var rest, more := CodePicture(p, dct, e, jobs[1..], trailer);
      ghost var data := Closed(parts) + Stuff(last.data);
      ghost var first := PictureScan(jobs[0].plan, parts, last, rest);
      file := jobs[0].header + (data + rest);
      scans := [first] + more;
      assert scans[1..] == more;
      Appended(old(e.out), jobs[0].header, data, rest);
      forall i | 0 <= i < |scans|
        ensures SentScan(p, dct, e.tab, scans[i])
      {
        assert i > 0 ==> SentScan(p, dct, e.tab, more[i - 1]);
      }
    }
  }

  lemma Appended(a: seq<byte>, b: seq<byte>, c: seq<byte>, d: seq<byte>)
    ensures a + (b + c) + d == a + (b + (c + d))
  {
  }

  lemma {:induction false} PlansInFile(file: seq<byte>, jobs: seq<Job>, scans: seq<PictureScan>, trailer: seq<byte>)
    requires InFile(file, jobs, scans, trailer)
    ensures PlansOf(scans) == seq(|jobs|, i requires 0 <= i < |jobs| => jobs[i].plan)
    decreases |jobs|
  {
    hide Closed, Stuff;
    if jobs != [] {
      PlansInFile(scans[0].tail, jobs[1..], scans[1..], trailer);
      forall i | 0 <= i < |scans|
        ensures scans[i].plan == jobs[i].plan
      {
        assert i > 0 ==> PlansOf(scans[1..])[i - 1] == jobs[1..][i - 1].plan;
      }
    }
  }

  function ScriptOf(jobs: seq<Job>): seq<Plan>
  {
    seq(|jobs|, i requires 0 <= i < |jobs| => jobs[i].plan)
  }

  /** The file is made of these scans, and decoding their bytes one scan after the other gives back every block of the
      picture at its place. */
  ghost predicate Restores(p: G.Picture, dct: G.Dct, tab: seq<int>, file: seq<byte>, jobs: seq<Job>,
                           scans: seq<PictureScan>, trailer: seq<byte>)
    requires G.ValidPicture(p)
  {
    && InFile(file, jobs, scans, trailer)
    && (forall i :: 0 <= i < |scans| ==> G.ValidScan(p, scans[i].plan.comps))
    && CanReceive(ArrivedAll(PlacedAll(p, scans)), ArrayPlaces(p))
    && var r := DecodePicture(p, tab, scans, ArrayPlaces(p));
    && r.Some?
    && forall q :: InPicture(p, q) ==>
         q in r.value && r.value[q] == G.RealBlock(dct, p.comps[q.comp], q.row, q.col)
  }

  /** The whole way: a picture with any legal script that sends all coefficients to the last bit is coded into a file,
      and decoding the scans of the file gives back every block of the picture at its place. */
  method RoundTrip(p: G.Picture, dct: G.Dct, tab: seq<int>, jobs: seq<Job>, trailer: seq<byte>, ghost order: seq<nat>)
      returns (file: seq<byte>)
    requires G.ValidPicture(p) && SmallBlocks(dct) && SoundTable(tab) && IsOrder(order)
    requires CanCode(p, jobs) && StartsWithMarker(trailer)
    requires LegalPlans(ScriptOf(jobs), order, Unsent(|p.comps|))
    requires forall c :: 0 <= c < |p.comps| ==> Complete(Reaches(ScriptOf(jobs), Unsent(|p.comps|)), c)
    ensures exists scans :: Restores(p, dct, tab, file, jobs, scans, trailer)
  {
    hide CanCode, AllScansSent, LegalPlans, Reaches, InFile, DecodePicture, CanReceive, InPicture, G.RealBlock, Complete,
      IsOrder, SmallBlocks;
    var e := new Encoder(tab);
    FixedStays(tab, [], 0);
    ghost var written, scans := CodePicture(p, dct, e, jobs, trailer);
    file := e.out;
    assert file == written;
    PlansInFile(file, jobs, scans, trailer);
    WholePicture(p, dct, tab, scans, order);
    assert Restores(p, dct, tab, file, jobs, scans, trailer);
  }
}
