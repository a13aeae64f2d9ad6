/** The exact binary arithmetic coder of sections D.1.4 to D.1.6 of ITU-T T.81: unbounded integers,
    no registers, no carries. It is the specification of the fixed-width coder of jcarith.c. */
module IntervalCoder {
  import opened Numbers
  import opened AriTable

  /** The statistics areas: one DC and one AC area per table number, and the fixed bin. */
  datatype Area = DcArea(tbl: nat) | AcArea(tbl: nat) | FixedArea

  datatype Bin = Bin(area: Area, idx: nat)

  /** One binary decision and the bin that conditions it. */
  datatype Decision = Decision(bin: Bin, bit: bool)

  type History = seq<Decision>

  function Put(h: History, area: Area, idx: nat, bit: bool): (r: History)
  {
    h + [Decision(Bin(area, idx), bit)]
  }

  /** The interval is [low, low + width) in units of 2^-(16 + shifts). */
  datatype Exact = Exact(tab: seq<int>, low: nat, width: nat, shifts: nat, bins: map<Bin, byte>)

  function BinState(bins: map<Bin, byte>, b: Bin): byte
  {
    if b in bins then bins[b] else if b.area.FixedArea? then 113 else 0
  }

  predicate LegalBins(bins: map<Bin, byte>)
  {
    forall b :: b in bins ==> LegalBin(bins[b])
  }

  /** The interval lies inside [0, 1). */
  ghost predicate InUnit(e: Exact)
  {
    e.low + e.width <= Pow2(16 + e.shifts)
  }

  ghost predicate Normal(e: Exact)
  {
    && SoundTable(e.tab)
    && LegalBins(e.bins)
    && 0x8000 <= e.width <= 0x1_0000
    && InUnit(e)
  }

  function Start(tab: seq<int>): Exact
  {
    Exact(tab, 0, 0x1_0000, 0, map[])
  }

  function EntryOf(e: Exact, b: Bin): int
    requires SoundTable(e.tab) && LegalBins(e.bins)
  {
    e.tab[BinState(e.bins, b) % 0x80]
  }

  /** What the more probable symbol leaves of the interval when the estimate is taken off the top. */
  function Rest(e: Exact, b: Bin): int
    requires SoundTable(e.tab) && LegalBins(e.bins)
  {
    e.width - Qe(EntryOf(e, b))
  }

  /** The less probable symbol takes the upper part, unless the estimate exceeds the rest,
      in which case the two symbols are exchanged. */
  predicate TakesUpper(e: Exact, d: Decision)
    requires SoundTable(e.tab) && LegalBins(e.bins)
  {
    (d.bit != Mps(BinState(e.bins, d.bin))) != (Rest(e, d.bin) < Qe(EntryOf(e, d.bin)))
  }

  /** The bin moves only when the new width needs renormalizing. */
  function MovedBins(e: Exact, d: Decision, width: int): map<Bin, byte>
    requires SoundTable(e.tab) && LegalBins(e.bins)
  {
    var sv, p := BinState(e.bins, d.bin), EntryOf(e, d.bin);
    if width >= 0x8000 then e.bins
    else e.bins[d.bin := Moved(sv, if d.bit != Mps(sv) then NextLps(p) else NextMps(p))]
  }

  function Narrow(e: Exact, d: Decision): Exact
    requires SoundTable(e.tab) && LegalBins(e.bins) && e.width >= 0x8000
  {
    var p, rest := EntryOf(e, d.bin), Rest(e, d.bin);
    assert SoundEntry(p);
    if TakesUpper(e, d) then e.(low := e.low + rest, width := Qe(p), bins := MovedBins(e, d, Qe(p)))
    else e.(width := rest, bins := MovedBins(e, d, rest))
  }

  function Doubled(e: Exact): Exact
  {
    e.(low := 2 * e.low, width := 2 * e.width, shifts := e.shifts + 1)
  }

  lemma DoubledInUnit(e: Exact)
    requires InUnit(e)
    ensures InUnit(Doubled(e))
  {
    assert Pow2(16 + e.shifts + 1) == 2 * Pow2(16 + e.shifts);
  }

  function Normalize(e: Exact): Exact
    requires e.width > 0
    decreases 0x8000 - e.width
  {
    if e.width >= 0x8000 then e else Normalize(Doubled(e))
  }

  function Step(e: Exact, d: Decision): Exact
    requires SoundTable(e.tab) && LegalBins(e.bins) && e.width >= 0x8000
  {
    NarrowFacts(e, d);
    Normalize(Narrow(e, d))
  }

  function Run(tab: seq<int>, h: History): (e: Exact)
    requires SoundTable(tab)
    ensures e.tab == tab && LegalBins(e.bins) && e.width >= 0x8000
  {
    if h == [] then Start(tab)
    else
      var e := Run(tab, h[..|h| - 1]);
      var d := h[|h| - 1];
      NarrowFacts(e, d);
      NormalizeFacts(Narrow(e, d));
      Step(e, d)
  }

  /** A bin that moves to a state of its table entry stays legal. */
  lemma LegalMoved(bins: map<Bin, byte>, b: Bin, next: byte)
    requires LegalBins(bins) && next % 0x80 <= 113
    ensures LegalBins(bins[b := Moved(BinState(bins, b), next)])
  {
    MovedIsLegal(BinState(bins, b), next);
    hide LegalBin, Moved;
  }

  /** The entry that a legal bin selects. */
  lemma EntryIsSound(tab: seq<int>, bins: map<Bin, byte>, b: Bin)
    requires SoundTable(tab) && LegalBins(bins)
    ensures var p := tab[BinState(bins, b) % 0x80];
      SoundEntry(p) && NextLps(p) % 0x80 <= 113 && NextMps(p) % 0x80 <= 113
  {
  }

  lemma MovedBinsLegal(e: Exact, d: Decision, width: int)
    requires SoundTable(e.tab) && LegalBins(e.bins)
    ensures LegalBins(MovedBins(e, d, width))
  {
    EntryIsSound(e.tab, e.bins, d.bin);
    hide LegalBins, SoundTable, Moved, BinState, NextLps, NextMps, Mps;
    LegalMoved(e.bins, d.bin, NextLps(EntryOf(e, d.bin)));
    LegalMoved(e.bins, d.bin, NextMps(EntryOf(e, d.bin)));
  }

  lemma NarrowFacts(e: Exact, d: Decision)
    requires SoundTable(e.tab) && LegalBins(e.bins) && e.width >= 0x8000
    ensures var n := Narrow(e, d); 0 < n.width <= e.width && n.tab == e.tab && LegalBins(n.bins)
    ensures var n := Narrow(e, d); e.low <= n.low && n.low + n.width <= e.low + e.width
  {
    assert SoundEntry(EntryOf(e, d.bin));
    hide MovedBins;
    MovedBinsLegal(e, d, Qe(EntryOf(e, d.bin)));
    MovedBinsLegal(e, d, Rest(e, d.bin));
  }

  lemma NormalizeFacts(e: Exact)
    requires e.width > 0
    ensures var n := Normalize(e); n.width >= 0x8000 && n.tab == e.tab && n.bins == e.bins
    ensures e.width <= 0x1_0000 ==> Normalize(e).width <= 0x1_0000
    ensures InUnit(e) ==> InUnit(Normalize(e))
    ensures Normalize(e).shifts >= e.shifts
    decreases 0x8000 - e.width
  {
    if e.width < 0x8000 {
      NormalizeFacts(Doubled(e));
      if InUnit(e) {
        DoubledInUnit(e);
      }
    }
  }

  lemma StepNormal(e: Exact, d: Decision)
    requires Normal(e)
    ensures Normal(Step(e, d))
  {
    NarrowFacts(e, d);
    NormalizeFacts(Narrow(e, d));
  }

  lemma RunPut(tab: seq<int>, h: History, d: Decision)
    requires SoundTable(tab)
    ensures Run(tab, h + [d]) == Step(Run(tab, h), d)
  {
    assert (h + [d])[..|h|] == h;
  }

  /** The exact coder never leaves the unit interval and always holds a normalized width. */
  lemma {:induction false} RunNormal(tab: seq<int>, h: History)
    requires SoundTable(tab)
    ensures Normal(Run(tab, h))
  {
    if h == [] {
      Pow2Values();
    } else {
      RunNormal(tab, h[..|h| - 1]);
      StepNormal(Run(tab, h[..|h| - 1]), h[|h| - 1]);
    }
  }

  /** One more decision, as the coder performs it: narrow, then renormalize. */
  lemma RunStep(tab: seq<int>, h: History, d: Decision)
    requires SoundTable(tab)
    ensures Normal(Run(tab, h))
    ensures var n := Narrow(Run(tab, h), d);
      && 0 < n.width && InUnit(n)
      && Run(tab, h + [d]) == Normalize(n) && (n.width >= 0x8000 ==> Normalize(n) == n)
      && Normalize(n).bins == n.bins
  {
    RunNormal(tab, h);
    RunPut(tab, h, d);
    NarrowFacts(Run(tab, h), d);
    NormalizeFacts(Narrow(Run(tab, h), d));
  }

  /** The fixed bin never adapts. */
  lemma {:induction false} FixedStays(tab: seq<int>, h: History, idx: nat)
    requires SoundTable(tab)
    ensures BinState(Run(tab, h).bins, Bin(FixedArea, idx)) == 113
  {
    if h != [] {
      hide SoundEntry, LegalBins;
      var init, d := h[..|h| - 1], h[|h| - 1];
      FixedStays(tab, init, idx);
      NarrowFacts(Run(tab, init), d);
      NormalizeFacts(Narrow(Run(tab, init), d));
    }
  }

  /** The integer v, read as the binary fraction v / 256^m, lies in the interval of e. */
  ghost predicate Contains(e: Exact, v: nat, m: nat)
  {
    && 16 + e.shifts <= 8 * m
    && Within(e.low, e.width, Pow2(8 * m - 16 - e.shifts), v)
  }

  lemma ContainsDoubled(e: Exact, v: nat, m: nat)
    requires Contains(Doubled(e), v, m)
    ensures Contains(e, v, m)
  {
    var unit := Pow2(8 * m - 16 - (e.shifts + 1));
    assert Pow2(8 * m - 16 - e.shifts) == 2 * unit;
    assert e.low * (2 * unit) == 2 * e.low * unit;
    assert (e.low + e.width) * (2 * unit) == (2 * e.low + 2 * e.width) * unit;
  }

  lemma ContainsNormalize(e: Exact, v: nat, m: nat)
    requires e.width > 0 && Contains(Normalize(e), v, m)
    ensures Contains(e, v, m)
    decreases 0x8000 - e.width
  {
    if e.width < 0x8000 {
      ContainsNormalize(Doubled(e), v, m);
      ContainsDoubled(e, v, m);
    }
  }

  lemma ContainsNarrow(e: Exact, d: Decision, v: nat, m: nat)
    requires SoundTable(e.tab) && LegalBins(e.bins) && e.width >= 0x8000
    requires Contains(Narrow(e, d), v, m)
    ensures Contains(e, v, m)
  {
    var n := Narrow(e, d);
    NarrowFacts(e, d);
    var unit := Pow2(8 * m - 16 - e.shifts);
    MulMono(e.low, n.low, unit);
    MulMono(n.low + n.width, e.low + e.width, unit);
  }

  /** Intervals are nested: a point of the final interval lies in the interval of every prefix. */
  lemma {:induction false} ContainsPrefix(tab: seq<int>, h: History, ds: History, v: nat, m: nat)
    requires SoundTable(tab) && h <= ds && Contains(Run(tab, ds), v, m)
    ensures Contains(Run(tab, h), v, m)
    decreases |ds|
  {
    if h != ds {
      var ds' := ds[..|ds| - 1];
      var d := ds[|ds| - 1];
      NarrowFacts(Run(tab, ds'), d);
      ContainsNormalize(Narrow(Run(tab, ds'), d), v, m);
      ContainsNarrow(Run(tab, ds'), d, v, m);
      ContainsPrefix(tab, h, ds', v, m);
    }
  }
}
