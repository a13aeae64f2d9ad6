/** The arithmetic entropy encoder of jcarith.c: the coding registers, the statistics areas and the byte output. */
module ArithEncoder {
  import opened Numbers
  import opened AriTable
  import opened IntervalCoder
  import opened ArithRegisters
  import opened ArithFinish

  const NUM_ARITH_TBLS := 16
  const DC_STAT_BINS := 64
  const AC_STAT_BINS := 256

  predicate InArea(b: Bin)
  {
    match b.area
    case DcArea(tbl) => tbl < NUM_ARITH_TBLS && b.idx < DC_STAT_BINS
    case AcArea(tbl) => tbl < NUM_ARITH_TBLS && b.idx < AC_STAT_BINS
    case FixedArea => b.idx == 0
  }

  class Encoder {
    const tab: seq<int>

    var c: int
    var a: int
    var sc: int
    var zc: int
    var ct: int
    var buffer: int

    const dcStats: array2<byte>
    const acStats: array2<byte>
    const fixedBin: array<byte>

    var out: seq<byte>

    // The areas in use by the scan, the decisions coded since the registers were reset, what had been
    // sent before that, and the data bytes sent since, without stuffing.
    ghost var live: set<Area>
    ghost var history: History
    ghost var prior: seq<byte>
    ghost var data: seq<byte>

    ghost function Regs(): Registers
      reads this
    {
      Registers(c, a, sc, zc, ct, buffer)
    }

    ghost predicate Areas()
    {
      && SoundTable(tab)
      && dcStats.Length0 == NUM_ARITH_TBLS && dcStats.Length1 == DC_STAT_BINS
      && acStats.Length0 == NUM_ARITH_TBLS && acStats.Length1 == AC_STAT_BINS
      && fixedBin.Length == 4
      && dcStats != acStats
    }

    ghost predicate HasBin(b: Bin)
      reads this`live
    {
      InArea(b) && b.area in live
    }

    /** The statistics areas in use hold what the exact coder holds. */
    ghost predicate BinsHold(bins: map<Bin, byte>)
      requires Areas()
      reads this`live, dcStats, acStats, fixedBin
    {
      && (forall t, i :: 0 <= t < NUM_ARITH_TBLS && 0 <= i < DC_STAT_BINS && DcArea(t) in live
            ==> dcStats[t, i] == BinState(bins, Bin(DcArea(t), i)))
      && (forall t, i :: 0 <= t < NUM_ARITH_TBLS && 0 <= i < AC_STAT_BINS && AcArea(t) in live
            ==> acStats[t, i] == BinState(bins, Bin(AcArea(t), i)))
      && fixedBin[0] == BinState(bins, Bin(FixedArea, 0))
    }

    ghost predicate Sent()
      reads this
    {
      out == prior + Stuff(data)
    }

    /** The bytes held back by the registers are consistent. */
    ghost predicate Held()
      reads this
    {
      zc >= 0 && sc >= 0 && -1 <= buffer < 0xFF && (buffer < 0 ==> data == [] && zc == 0)
    }

    ghost predicate Valid()
      reads this, dcStats, acStats, fixedBin
    {
      && Areas() && Sent()
      && Coupled(Run(tab, history), Regs(), data) && ct > 0
      && BinsHold(Run(tab, history).bins)
    }

    /** jinit_arith_encoder: the fixed bin stands for one half; nothing has been coded. */
    constructor (tab: seq<int>)
      requires SoundTable(tab)
      ensures Valid() && this.tab == tab && history == [] && prior == [] && out == [] && live == {FixedArea}
      ensures fresh(dcStats) && fresh(acStats) && fresh(fixedBin)
    {
      this.tab := tab;
      dcStats := new byte[NUM_ARITH_TBLS, DC_STAT_BINS];
      acStats := new byte[NUM_ARITH_TBLS, AC_STAT_BINS];
      fixedBin := new byte[4](i => 113);
      c, a, sc, zc, ct, buffer := 0, 0x1_0000, 0, 0, 11, -1;
      out, live, history, prior, data := [], {FixedArea}, [], [], [];
      new;
      StartCoupled(tab);
    }

    method Load(b: Bin, ghost bins: map<Bin, byte>) returns (sv: byte)
      requires Areas() && HasBin(b) && BinsHold(bins)
      ensures sv == BinState(bins, b)
    {
      match b.area
      case DcArea(tbl) => sv := dcStats[tbl, b.idx];
      case AcArea(tbl) => sv := acStats[tbl, b.idx];
      case FixedArea => sv := fixedBin[0];
    }

    method Store(b: Bin, sv: byte, ghost bins: map<Bin, byte>)
      requires Areas() && HasBin(b) && BinsHold(bins)
      modifies dcStats, acStats, fixedBin
      ensures BinsHold(bins[b := sv])
    {
      match b.area
      case DcArea(tbl) => dcStats[tbl, b.idx] := sv;
      case AcArea(tbl) => acStats[tbl, b.idx] := sv;
      case FixedArea => fixedBin[0] := sv;
    }

    method EmitByte(val: byte)
      modifies this`out
      ensures out == old(out) + [val]
    {
      out := out + [val];
    }

    /** Sends one data byte, with the zero stuffed after 0xFF. */
    method EmitData(val: byte)
      requires Sent()
      modifies this`out, this`data
      ensures Sent() && data == old(data) + [val]
    {
      EmitByte(val);
      if val == 0xFF {
        EmitByte(0x00);
      }
      StuffSnoc(data, val);
      data := data + [val];
    }

    /** do emit_byte(0x00) while (--zc), guarded by zc != 0. */
    method EmitZeros()
      requires Sent() && zc >= 0
      modifies this`out, this`data, this`zc
      ensures Sent() && zc == 0 && data == old(data) + Fill(0, old(zc))
    {
      while zc > 0
        invariant Sent() && 0 <= zc <= old(zc)
        invariant data == old(data) + Fill(0, old(zc) - zc)
      {
        FillSnoc(0, old(zc) - zc);
        EmitData(0x00);
        zc := zc - 1;
      }
    }

    /** Handles an overflow over all stacked 0xFF bytes. */
    method CarryOut()
      requires Sent() && Held()
      modifies this`out, this`data, this`zc, this`sc
      ensures Sent() && sc == 0
      ensures zc == old(sc)
      ensures data == if buffer >= 0 then old(data) + Fill(0, old(zc)) + [buffer + 1] else old(data)
    {
      if buffer >= 0 {
        EmitZeros();
        EmitData(buffer + 1);
      }
      zc := zc + sc;
      sc := 0;
    }

    /** do { emit 0xFF, 0x00 } while (--sc), guarded by sc != 0. */
    method EmitOnes()
      requires Sent() && sc >= 0
      modifies this`out, this`data, this`sc
      ensures Sent() && sc == 0 && data == old(data) + Fill(0xFF, old(sc))
    {
      while sc > 0
        invariant Sent() && 0 <= sc <= old(sc)
        invariant data == old(data) + Fill(0xFF, old(sc) - sc)
      {
        FillSnoc(0xFF, old(sc) - sc);
        EmitData(0xFF);
        sc := sc - 1;
      }
    }

    /** Sends the buffer and the stacked 0xFF bytes, which will not overflow any more. */
    method SettleOut()
      requires Sent() && Held() && NoTrailingZero(data)
      modifies this`out, this`data, this`zc, this`sc
      ensures Sent() && sc == 0
      ensures Settled(old(data), old(Regs()), data, zc)
    {
      ghost var p := Produced(data, Regs());
      if buffer == 0 {
        FillSnoc(0, zc);
        zc := zc + 1;
      } else if buffer >= 0 {
        EmitZeros();
        EmitData(buffer);
      }
      assert data + Fill(0, zc) + Fill(0xFF, sc) == p;
      if sc > 0 {
        EmitZeros();
        EmitOnes();
      }
    }

    /** The byte output at the bottom of the renormalization loop. */
    method ByteOut(ghost e: Exact)
      requires Sent() && Coupled(e, Regs(), data) && ct == 0 && InUnit(e)
      modifies this`c, this`ct, this`buffer, this`out, this`data, this`zc, this`sc
      ensures Sent() && Coupled(e, Regs(), data) && ct == 8
    {
      ghost var r, d := Regs(), data;
      var temp := c / 0x8_0000;
      if temp > 0xFF {
        CarryHasRoom(e, r, d);
        CarryOut();
        ByteCarried(e, r, d, data);
        buffer := temp % 0x100;
      } else if temp == 0xFF {
        ByteStacked(e, r, d);
        sc := sc + 1;
      } else {
        SettleOut();
        ByteSettled(e, r, d, data, zc);
        buffer := temp % 0x100;
      }
      c := c % 0x8_0000;
      ct := ct + 8;
    }

    /** Renormalization and data output (section D.1.6). Callers enter with a below 0x8000, so testing
        before the first round is the same as testing after it. */
    method Renormalize(ghost e: Exact)
      requires Sent() && Coupled(e, Regs(), data) && ct > 0 && InUnit(e)
      modifies this`a, this`c, this`ct, this`buffer, this`out, this`data, this`zc, this`sc
      ensures Sent() && Coupled(Normalize(e), Regs(), data) && ct > 0
    {
      ghost var now := e;
      while a < 0x8000
        invariant Sent() && Coupled(now, Regs(), data) && ct > 0 && InUnit(now)
        invariant Normalize(now) == Normalize(e)
        decreases 0x8000 - a
      {
        ShiftCoupled(now, Regs(), data);
        DoubledInUnit(now);
        now := Doubled(now);
        a := 2 * a;
        c := 2 * c;
        ct := ct - 1;
        if ct == 0 {
          ByteOut(now);
        }
      }
    }

    /** Encoding and estimation (sections D.1.4 and D.1.5): picks the sub-interval and moves the bin. */
    method Estimate(b: Bin, val: bool, ghost e: Exact)
      requires Areas() && HasBin(b) && Normal(e) && e.tab == tab
      requires Coupled(e, Regs(), data) && BinsHold(e.bins)
      modifies this`a, this`c, dcStats, acStats, fixedBin
      ensures Coupled(Narrow(e, Decision(b, val)), Regs(), data)
      ensures BinsHold(Narrow(e, Decision(b, val)).bins)
      ensures a == Narrow(e, Decision(b, val)).width
    {
      ghost var r, n := Regs(), Narrow(e, Decision(b, val));
      NarrowFacts(e, Decision(b, val));
      var sv := Load(b, e.bins);
      var p := tab[sv % 0x80];
      assert SoundEntry(p);
      var nl, nm, qe := NextLps(p), NextMps(p), Qe(p);
      a := a - qe;
      if val != (sv / 0x80 == 1) {
        if a >= qe {
          c := c + a;
          a := qe;
        }
        Store(b, Moved(sv, nl), e.bins);
      } else if a < 0x8000 {
        if a < qe {
          c := c + a;
          a := qe;
        }
        Store(b, Moved(sv, nm), e.bins);
      }
      NarrowCoupled(e, r, data, n, Regs());
    }

    /** arith_encode: one binary decision conditioned by one statistics bin. */
    method Encode(b: Bin, val: bool)
      requires Valid() && HasBin(b)
      modifies this, dcStats, acStats, fixedBin
      ensures Valid() && history == old(history) + [Decision(b, val)]
      ensures prior == old(prior) && live == old(live)
    {
      hide Coupled, Narrow, Normalize, Stuff, BinState;
      ghost var d := Decision(b, val);
      ghost var e := Run(tab, history);
      RunStep(tab, history, d);
      Estimate(b, val, e);
      history := history + [d];
      if a < 0x8000 {
        Renormalize(Narrow(e, d));
      }
    }

    /** Output of the final bytes, and of the zeros pending before them, only if they are not 0x00. */
    method TailOut(code: nat)
      requires Sent() && zc >= 0 && NoTrailingZero(data) && code < 0x800_0000
      modifies this`out, this`data, this`zc
      ensures Sent() && data == Tail(old(data), old(zc), code) && NoTrailingZero(data)
    {
      if code / 0x8_0000 != 0 || code / 0x800 % 0x100 != 0 {
        EmitZeros();
        EmitData(code / 0x8_0000);
        if code / 0x800 % 0x100 != 0 {
          EmitData(code / 0x800 % 0x100);
        }
      }
    }

    /** Sends what can no longer change once the last shift of c has decided about the final carry. */
    method FlushHeld(carry: bool)
      requires Sent() && Held() && NoTrailingZero(data)
      requires carry ==> buffer >= 0
      modifies this`out, this`data, this`zc, this`sc
      ensures Sent() && zc >= 0 && NoTrailingZero(data)
      ensures |data + Fill(0, zc)| == |Produced(old(data), old(Regs()))|
      ensures Be(data + Fill(0, zc)) == Be(Produced(old(data), old(Regs()))) + (if carry then 1 else 0)
    {
      ghost var r, d := Regs(), data;
      if carry {
        CarryOut();
        CarryProduced(d, r, data, Regs());
      } else {
        SettleOut();
      }
    }

    /** finish_pass: the bytes of the segment represent its final interval and end in no zero (section D.1.8). */
    method FinishPass()
      requires Valid()
      modifies this`out, this`data, this`c, this`zc, this`sc
      ensures out == prior + Stuff(data) && NoTrailingZero(data)
      ensures Represents(Run(tab, history), data)
    {
      hide BinState, Stuff, Run;
      ghost var e, r, d := Run(tab, history), Regs(), data;
      ghost var p, n := Be(Produced(d, r)), |Produced(d, r)|;
      RunNormal(tab, history);
      c := FinalCode(c, a);
      c := c * Pow2(ct);
      ghost var low := FinalPlan(e, r, d, c);
      FlushHeld(c >= 0x800_0000);
      TailRepresents(e, n, p, ct, low, c, data, zc);
      TailOut(c % 0x800_0000);
    }

    /** MEMZERO of one DC statistics area. */
    method ClearDc(tbl: nat)
      requires Areas() && tbl < NUM_ARITH_TBLS
      modifies dcStats
      ensures forall t, i :: 0 <= t < NUM_ARITH_TBLS && 0 <= i < DC_STAT_BINS
                ==> dcStats[t, i] == if t == tbl then 0 else old(dcStats[t, i])
    {
      forall i | 0 <= i < DC_STAT_BINS {
        dcStats[tbl, i] := 0;
      }
    }

    method ClearAc(tbl: nat)
      requires Areas() && tbl < NUM_ARITH_TBLS
      modifies acStats
      ensures forall t, i :: 0 <= t < NUM_ARITH_TBLS && 0 <= i < AC_STAT_BINS
                ==> acStats[t, i] == if t == tbl then 0 else old(acStats[t, i])
    {
      forall i | 0 <= i < AC_STAT_BINS {
        acStats[tbl, i] := 0;
      }
    }

    /** The registers as start_pass and emit_restart set them; the areas in `areas` have been cleared. */
    method Reset(ghost areas: set<Area>)
      requires Areas() && fixedBin[0] == 113
      requires forall t, i :: 0 <= t < NUM_ARITH_TBLS && 0 <= i < DC_STAT_BINS && DcArea(t) in areas ==> dcStats[t, i] == 0
      requires forall t, i :: 0 <= t < NUM_ARITH_TBLS && 0 <= i < AC_STAT_BINS && AcArea(t) in areas ==> acStats[t, i] == 0
      modifies this
      ensures Valid() && history == [] && live == areas && prior == out == old(out)
    {
      hide Coupled;
      c, a, sc, zc, ct, buffer := 0, 0x1_0000, 0, 0, 11, -1;
      live, history, prior, data := areas, [], out, [];
      StartCoupled(tab);
    }
  }
}
