/** Probability estimation (sections D.1.4 to D.1.6 of ITU-T T.81) said on the rows of Table D.3: which part of the
    interval a decision takes, and what becomes of its statistics bin. */
module Estimation {
  import opened Numbers
  import opened AriTable
  import opened JpegAriTable
  import opened IntervalCoder

  /** The bin of the decision is at this row of the table. */
  ghost predicate AtRow(e: Exact, b: Bin, r: Row)
  {
    && SoundTable(e.tab) && LegalBins(e.bins) && e.width >= 0x8000 && SoundRow(r)
    && e.tab[BinState(e.bins, b) % 0x80] == V(r)
  }

  lemma EntryFields(e: Exact, b: Bin, r: Row)
    requires AtRow(e, b, r)
    ensures EntryOf(e, b) == V(r) && Qe(V(r)) == r.qe && NextMps(V(r)) == r.nextMps < 0x80
    ensures NextLps(V(r)) % 0x80 == r.nextLps && (NextLps(V(r)) >= 0x80 <==> r.switchMps)
  {
    UnpackV(r);
  }

  /** The bins after a decision, in terms of the packed entry. */
  lemma Transition(e: Exact, d: Decision)
    requires SoundTable(e.tab) && LegalBins(e.bins) && e.width >= 0x8000
    ensures var sv, p, n := BinState(e.bins, d.bin), EntryOf(e, d.bin), Narrow(e, d);
      n.bins == if n.width >= 0x8000 then e.bins
        else e.bins[d.bin := Moved(sv, if d.bit != (sv >= 0x80) then NextLps(p) else NextMps(p))]
    ensures d.bit != (BinState(e.bins, d.bin) >= 0x80) ==> Narrow(e, d).width < 0x8000
  {
    hide Moved, NextLps, NextMps;
    assert SoundEntry(EntryOf(e, d.bin));
  }

  /** The bin of the less probable symbol goes to Next_Index_LPS, and its symbol is exchanged exactly when the row says
      so; nothing else of the statistics changes. */
  lemma LessProbable(e: Exact, d: Decision, r: Row)
    requires AtRow(e, d.bin, r) && d.bit != (BinState(e.bins, d.bin) >= 0x80)
    ensures var sv, sv' := BinState(e.bins, d.bin), BinState(Narrow(e, d).bins, d.bin);
      && sv' % 0x80 == r.nextLps
      && (sv' >= 0x80 <==> if r.switchMps then sv < 0x80 else sv >= 0x80)
    ensures forall b :: b != d.bin ==> BinState(Narrow(e, d).bins, b) == BinState(e.bins, b)
  {
    Transition(e, d);
    EntryFields(e, d.bin, r);
    hide Narrow, V, NextLps, NextMps;
    MovedIs(BinState(e.bins, d.bin), NextLps(V(r)));
  }

  /** The bin of the more probable symbol goes to Next_Index_MPS if the interval has to be renormalized, and keeps its
      symbol; otherwise the statistics stay as they are. */
  lemma MoreProbable(e: Exact, d: Decision, r: Row)
    requires AtRow(e, d.bin, r) && d.bit == (BinState(e.bins, d.bin) >= 0x80)
    ensures var sv, sv' := BinState(e.bins, d.bin), BinState(Narrow(e, d).bins, d.bin);
      if Narrow(e, d).width < 0x8000 then sv' % 0x80 == r.nextMps && (sv' >= 0x80 <==> sv >= 0x80) else sv' == sv
    ensures forall b :: b != d.bin ==> BinState(Narrow(e, d).bins, b) == BinState(e.bins, b)
  {
    Transition(e, d);
    EntryFields(e, d.bin, r);
    hide Narrow, V, NextLps, NextMps;
    MovedIs(BinState(e.bins, d.bin), NextMps(V(r)));
  }

  /** The estimate is taken off the top of the interval for the less probable symbol. If that leaves less than the
      estimate, the two symbols are exchanged. */
  lemma SubInterval(e: Exact, d: Decision, r: Row)
    requires AtRow(e, d.bin, r)
    ensures var rest, n, more := e.width - r.qe, Narrow(e, d), d.bit == (BinState(e.bins, d.bin) >= 0x80);
      if more == (rest >= r.qe) then n.low == e.low && n.width == rest
      else n.low == e.low + rest && n.width == r.qe
    ensures Narrow(e, d).shifts == e.shifts
  {
    UnpackV(r);
  }

  /** Renormalization doubles the interval as often as needed to make its width 0x8000, and no more often. */
  lemma {:induction false} Renormalized(e: Exact) returns (k: nat)
    requires 0 < e.width < 0x1_0000
    ensures var n := Normalize(e);
      && n.low == e.low * Pow2(k) && n.width == e.width * Pow2(k) && n.shifts == e.shifts + k && n.bins == e.bins
      && n.width >= 0x8000 && (k > 0 ==> e.width * Pow2(k - 1) < 0x8000)
    decreases 0x8000 - e.width
  {
    if e.width >= 0x8000 {
      k := 0;
      assert Pow2(0) == 1;
    } else {
      var j := Renormalized(Doubled(e));
      k := j + 1;
      assert Pow2(j + 1) == 2 * Pow2(j);
      MulAssoc(e.low, 2, Pow2(j));
      MulAssoc(e.width, 2, Pow2(j));
      if j > 0 {
        assert Pow2(j) == 2 * Pow2(j - 1);
        MulAssoc(e.width, 2, Pow2(j - 1));
      } else {
        assert Pow2(0) == 1;
      }
    }
  }

  /** A run begins with the unit interval; every bin is in state 0 with 0 as its more probable symbol, but the fixed
      one, which stays at state 113. */
  lemma RunBegins(tab: seq<int>, b: Bin)
    requires SoundTable(tab)
    ensures var e := Run(tab, []);
      e.low == 0 && e.width == 0x1_0000 && e.shifts == 0 && BinState(e.bins, b) == if b.area.FixedArea? then 113 else 0
  {
  }

  /** What one more decision of a run does to the statistics. */
  lemma RunAdapts(tab: seq<int>, h: History, d: Decision, r: Row)
    requires SoundTable(tab) && AtRow(Run(tab, h), d.bin, r)
    ensures var e, n := Run(tab, h), Run(tab, h + [d]);
      var sv, sv' := BinState(e.bins, d.bin), BinState(n.bins, d.bin);
      && (d.bit != (sv >= 0x80) ==>
            sv' % 0x80 == r.nextLps && (sv' >= 0x80 <==> if r.switchMps then sv < 0x80 else sv >= 0x80))
      && (d.bit == (sv >= 0x80) && Narrow(e, d).width < 0x8000 ==>
            sv' % 0x80 == r.nextMps && (sv' >= 0x80 <==> sv >= 0x80))
      && (d.bit == (sv >= 0x80) && Narrow(e, d).width >= 0x8000 ==> sv' == sv)
      && forall b :: b != d.bin ==> BinState(n.bins, b) == BinState(e.bins, b)
  {
    var e := Run(tab, h);
    RunPut(tab, h, d);
    NarrowFacts(e, d);
    NormalizeFacts(Narrow(e, d));
    hide Run, Narrow, Normalize, BinState, AtRow;
    if d.bit != (BinState(e.bins, d.bin) >= 0x80) {
      LessProbable(e, d, r);
    } else {
      MoreProbable(e, d, r);
    }
  }

  /** Every row of the table of jaricom.c is the row of a state. */
  lemma RowOf(state: nat) returns (r: Row)
    requires state < 114
    ensures SoundRow(r) && Aritab()[state] == V(r)
  {
    var rows := Rows0() + Rows19() + Rows38() + Rows57() + Rows76() + Rows95();
    r := rows[state];
    assert r in rows;
  }
}
