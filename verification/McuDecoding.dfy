/** The MCU decoder of jdarith.c (sections F.2.4, F.2.5 and G.2 of ITU-T T.81) over any supply of decisions,
    and the proof that it reads back what McuCoding describes, bin by bin. */
module McuDecoding {
  import opened Numbers
  import opened IntervalCoder
  import opened JpegScan
  import opened McuCoding

  /** Decodes one decision with a given bin and moves on. */
  type Source<!D> = (D, Bin) -> (bool, D)

  /** A decoder that meets a corrupt magnitude or position gives up. */
  datatype Read<D, T> = Corrupt | Good(d: D, value: T)

  /** Setting a bit, for m a power of two. */
  function SetBit(v: int, m: nat): (r: int)
    requires m > 0
    ensures v <= r
  {
    if v / m % 2 == 1 then v else v + m
  }

  datatype Cat = Cat(st: nat, m: nat)

  /** Figure F.23: while (arith_decode(st)) m <<= 1, st++; a magnitude above 2^15 is corrupt. */
  function ReadCategory<D>(next: Source<D>, d: D, area: Area, st: nat, m: nat): Read<D, Cat>
    requires 0 < m
    decreases 0x8000 - m
  {
    var (bit, d1) := next(d, Bin(area, st));
    if !bit then Good(d1, Cat(st, m))
    else if 2 * m >= 0x8000 then Corrupt
    else ReadCategory(next, d1, area, st + 1, 2 * m)
  }

  /** Figure F.24: the bits below the leading bit m. */
  function ReadBits<D>(next: Source<D>, d: D, area: Area, st: nat, m: nat, v: nat): (D, nat)
    decreases m
  {
    if m / 2 == 0 then (d, v)
    else
      var (bit, d1) := next(d, Bin(area, st));
      ReadBits(next, d1, area, st, m / 2, if bit then SetBit(v, m / 2) else v)
  }

  /** The magnitude less one, of a category that starts with the leading bit. */
  function ReadMagnitude<D>(next: Source<D>, c: Read<D, Cat>, area: Area): Read<D, nat>
  {
    if c.Corrupt? then Corrupt
    else
      var (d, v) := ReadBits(next, c.d, area, c.value.st + 14, c.value.m, c.value.m);
      Good(d, v)
  }

  function ReadDcCategory<D>(next: Source<D>, d: D, tbl: nat, st: nat): Read<D, Cat>
  {
    var (more, d1) := next(d, Bin(DcArea(tbl), st));
    if more then ReadCategory(next, d1, DcArea(tbl), 20, 1) else Good(d1, Cat(st, 0))
  }

  datatype Difference = Difference(diff: int, m: nat)

  function ReadDifference<D>(next: Source<D>, d: D, tbl: nat, context: nat): Read<D, Difference>
  {
    var (negative, d1) := next(d, Bin(DcArea(tbl), context + 1));
    var c := ReadDcCategory(next, d1, tbl, context + 2 + (if negative then 1 else 0));
    var v := ReadMagnitude(next, c, DcArea(tbl));
    if v.Corrupt? then Corrupt
    else Good(v.d, Difference(if negative then -(v.value + 1) else v.value + 1, c.value.m))
  }

  function ReadDc<D>(next: Source<D>, d: D, tbl: nat, p: Prediction, lower: nat, upper: nat): Read<D, Prediction>
  {
    var (nonzero, d1) := next(d, Bin(DcArea(tbl), p.context));
    if !nonzero then Good(d1, Prediction(p.last, 0))
    else
      var v := ReadDifference(next, d1, tbl, p.context);
      if v.Corrupt? then Corrupt
      else Good(v.d, Prediction(p.last + v.value.diff, DcContext(v.value.m, v.value.diff < 0, lower, upper)))
  }

  /** for (;;) { k++; if (arith_decode(st + 1)) break; st += 3; if (k >= se) give up } */
  function ReadZeros<D>(next: Source<D>, d: D, tbl: nat, k: nat, se: nat): (r: Read<D, nat>)
    requires k < se
    ensures r.Good? ==> k < r.value <= se
    decreases se - k
  {
    var (bit, d1) := next(d, Bin(AcArea(tbl), 3 * k + 1));
    if bit then Good(d1, k + 1)
    else if k + 1 >= se then Corrupt
    else ReadZeros(next, d1, tbl, k + 1, se)
  }

  function ReadAcCategory<D>(next: Source<D>, d: D, tbl: nat, st: nat, high: bool): Read<D, Cat>
  {
    var (more, d1) := next(d, Bin(AcArea(tbl), st));
    if !more then Good(d1, Cat(st, 0))
    else
      var (larger, d2) := next(d1, Bin(AcArea(tbl), st));
      if !larger then Good(d2, Cat(st, 1))
      else ReadCategory(next, d2, AcArea(tbl), if high then 217 else 189, 2)
  }

  /** The sign and magnitude of the coefficient at position k. */
  function ReadNonzero<D>(next: Source<D>, d: D, tbl: nat, kx: nat, k: nat): Read<D, int>
    requires k > 0
  {
    var (negative, d1) := next(d, Bin(FixedArea, 0));
    var v := ReadMagnitude(next, ReadAcCategory(next, d1, tbl, 3 * (k - 1) + 2, k > kx), AcArea(tbl));
    if v.Corrupt? then Corrupt
    else Good(v.d, if negative then -(v.value + 1) else v.value + 1)
  }

  predicate Places(order: seq<nat>)
  {
    |order| == 64 && forall i :: 0 <= i < 64 ==> order[i] < 64
  }

  /** The coefficients after position k, stored into the block in natural order, scaled up by al. */
  function ReadAcFrom<D>(next: Source<D>, d: D, tbl: nat, kx: nat, k: nat, se: nat, order: seq<nat>, al: nat,
                         block: Block): (r: Read<D, Block>)
    requires se < 64 && |block| == 64 && Places(order)
    ensures r.Good? ==> |r.value| == 64
    decreases se - k
  {
    if k >= se then Good(d, block)
    else
      var (end, d1) := next(d, Bin(AcArea(tbl), 3 * k));
      if end then Good(d1, block)
      else
        var z := ReadZeros(next, d1, tbl, k, se);
        if z.Corrupt? then Corrupt
        else
          var v := ReadNonzero(next, z.d, tbl, kx, z.value);
          if v.Corrupt? then Corrupt
          else ReadAcFrom(next, v.d, tbl, kx, z.value, se, order, al, block[order[z.value] := v.value * Pow2(al)])
  }

  // ---- Reading undoes coding ----

  /** `at(d, h)` says that d stands after the decisions h of ds; a source follows ds when it then supplies
      the next decision and stands after that. */
  ghost predicate Follows<D(!new)>(next: Source<D>, at: (D, History) -> bool, ds: History)
  {
    forall d, h, area, idx, bit :: at(d, h) && Put(h, area, idx, bit) <= ds
      ==> next(d, Bin(area, idx)).0 == bit && at(next(d, Bin(area, idx)).1, Put(h, area, idx, bit))
  }

  lemma {:induction false} CategoryReads<D(!new)>(next: Source<D>, at: (D, History) -> bool, ds: History, d: D,
                                                  h: History, area: Area, st: nat, m: nat, v2: nat, k: nat)
    requires Follows(next, at, ds) && at(d, h)
    requires k < 15 && m == Pow2(k) && 0 < v2 < Pow2(15 - k)
    requires var c := CategoryFrom(h, area, st, m, v2); Put(c.h, area, c.st, false) <= ds
    ensures var c := CategoryFrom(h, area, st, m, v2);
      && var r := ReadCategory(next, d, area, st, m);
      && r.Good? && r.value == Cat(c.st, c.m)
      && at(r.d, Put(c.h, area, c.st, false))
    decreases v2
  {
    if v2 / 2 > 0 {
      LeadingBit(k, v2);
      assert Put(h, area, st, true) <= ds;
      CategoryReads(next, at, ds, next(d, Bin(area, st)).1, Put(h, area, st, true), area, st + 1, 2 * m, v2 / 2, k + 1);
    }
  }

  lemma LeadingBit(k: nat, v2: nat)
    requires k < 15 && 2 <= v2 < Pow2(15 - k)
    ensures k < 14 && 2 * Pow2(k) < 0x8000 && v2 / 2 < Pow2(15 - (k + 1)) && Pow2(k + 1) == 2 * Pow2(k)
  {
    assert Pow2(1) == 2;
    assert Pow2(15 - k) == 2 * Pow2(14 - k);
    Pow2Values();
    Pow2Add(k + 1, 14 - k);
    assert Pow2(16) == 2 * Pow2(15);
    MulMono(2, Pow2(14 - k), Pow2(k + 1));
  }

  /** The category ends at the leading bit of v. */
  lemma {:induction false} CategoryLeads(h: History, area: Area, st: nat, m: nat, v2: nat, v: nat, k: nat) returns (j: nat)
    requires m == Pow2(k) && v2 == v / m && v2 > 0
    ensures var c := CategoryFrom(h, area, st, m, v2); c.m == Pow2(j) && c.m <= v < 2 * c.m && c.st + k == st + j
    decreases v2
  {
    if v2 / 2 == 0 {
      j := k;
      DivLess(v, m, 1);
      DivLess(v, m, 2);
    } else {
      DivDiv(v, m, 2);
      j := CategoryLeads(Put(h, area, st, true), area, st + 1, 2 * m, v2 / 2, v, k + 1);
    }
  }

  /** The part of v above a bit m: what the decoder has rebuilt when it is about to read below m. */
  function Above(v: nat, m: nat): nat
    requires m > 0
  {
    v / m * m
  }

  lemma AboveHalf(v: nat, m: nat)
    requires m > 0
    ensures Above(v, m) == if v / m % 2 == 1 then SetBit(Above(v, 2 * m), m) else Above(v, 2 * m)
  {
    DivDiv(v, m, 2);
    var q := v / (2 * m);
    assert v / m == 2 * q + v / m % 2;
    assert q * (2 * m) == 2 * q * m;
    DivUnique(q * (2 * m), 2 * q, m, 0);
    assert (2 * q + 1) * m == 2 * q * m + m;
  }

  lemma {:induction false} BitsRead<D(!new)>(next: Source<D>, at: (D, History) -> bool, ds: History, d: D, h: History,
                                             area: Area, st: nat, k: nat, v: nat)
    requires Follows(next, at, ds) && at(d, h) && BitsBelow(h, area, st, Pow2(k), v) <= ds
    ensures var r := ReadBits(next, d, area, st, Pow2(k), Above(v, Pow2(k)));
      r.1 == v && at(r.0, BitsBelow(h, area, st, Pow2(k), v))
    decreases k
  {
    if k > 0 {
      var m := Pow2(k - 1);
      assert Pow2(k) == 2 * m;
      AboveHalf(v, m);
      var bit := v / m % 2 == 1;
      assert Put(h, area, st, bit) <= ds;
      BitsRead(next, at, ds, next(d, Bin(area, st)).1, Put(h, area, st, bit), area, st, k - 1, v);
    }
  }

  /** A magnitude is read back when its category has been read. */
  lemma MagnitudeReads<D(!new)>(next: Source<D>, at: (D, History) -> bool, ds: History, d: D, c: Category,
                                area: Area, v: nat, j: nat)
    requires Follows(next, at, ds) && at(d, Put(c.h, area, c.st, false))
    requires FinishMagnitude(c, area, v) <= ds
    requires (c.m == 0 && v == 0) || (c.m == Pow2(j) && c.m <= v < 2 * c.m)
    ensures var r := ReadMagnitude(next, Good(d, Cat(c.st, c.m)), area);
      r.Good? && r.value == v && at(r.d, FinishMagnitude(c, area, v))
  {
    if c.m > 0 {
      DivUnique(v, 1, c.m, v - c.m);
      BitsRead(next, at, ds, d, Put(c.h, area, c.st, false), area, c.st + 14, j, v);
    }
  }

  lemma DcCategoryReads<D(!new)>(next: Source<D>, at: (D, History) -> bool, ds: History, d: D, h: History,
                                 tbl: nat, st: nat, v: nat) returns (j: nat)
    requires Follows(next, at, ds) && at(d, h) && v < 0x8000
    requires var c := DcCategory(h, tbl, st, v); Put(c.h, DcArea(tbl), c.st, false) <= ds
    ensures var c := DcCategory(h, tbl, st, v);
      && ((c.m == 0 && v == 0) || (c.m == Pow2(j) && c.m <= v < 2 * c.m))
      && var r := ReadDcCategory(next, d, tbl, st);
      && r.Good? && r.value == Cat(c.st, c.m) && at(r.d, Put(c.h, DcArea(tbl), c.st, false))
  {
    j := 0;
    if v > 0 {
      assert Pow2(0) == 1;
      assert Pow2(15) == 0x8000 by { Pow2Values(); assert Pow2(16) == 2 * Pow2(15); }
      var h1 := Put(h, DcArea(tbl), st, true);
      assert h1 <= ds;
      j := CategoryLeads(h1, DcArea(tbl), 20, 1, v, v, 0);
      CategoryReads(next, at, ds, next(d, Bin(DcArea(tbl), st)).1, h1, DcArea(tbl), 20, 1, v, 0);
    }
  }

  lemma DcMagnitudeReads<D(!new)>(next: Source<D>, at: (D, History) -> bool, ds: History, d: D, h: History,
                                  tbl: nat, st: nat, v: nat)
    requires Follows(next, at, ds) && at(d, h) && v < 0x8000
    requires FinishMagnitude(DcCategory(h, tbl, st, v), DcArea(tbl), v) <= ds
    ensures var c, r := DcCategory(h, tbl, st, v), ReadDcCategory(next, d, tbl, st);
      && r.Good? && r.value.m == c.m
      && var b := ReadMagnitude(next, r, DcArea(tbl));
      && b.Good? && b.value == v && at(b.d, FinishMagnitude(c, DcArea(tbl), v))
  {
    var area, c := DcArea(tbl), DcCategory(h, tbl, st, v);
    assert Put(c.h, area, c.st, false) <= FinishMagnitude(c, area, v);
    var j := DcCategoryReads(next, at, ds, d, h, tbl, st, v);
    MagnitudeReads(next, at, ds, ReadDcCategory(next, d, tbl, st).d, c, area, v, j);
  }

  lemma DifferenceReads<D(!new)>(next: Source<D>, at: (D, History) -> bool, ds: History, d: D, h: History,
                                 tbl: nat, context: nat, diff: int)
    requires Follows(next, at, ds) && at(d, h) && 0 < Abs(diff) <= 0x8000
    requires CodeDifference(h, tbl, context, diff).h <= ds
    ensures var c := CodeDifference(h, tbl, context, diff);
      && var r := ReadDifference(next, d, tbl, context);
      && r.Good? && r.value == Difference(diff, c.m) && at(r.d, c.h)
  {
    var h1 := Put(h, DcArea(tbl), context + 1, diff < 0);
    assert h1 <= CodeDifference(h, tbl, context, diff).h;
    var d1 := next(d, Bin(DcArea(tbl), context + 1)).1;
    DcMagnitudeReads(next, at, ds, d1, h1, tbl, context + (if diff < 0 then 3 else 2), Abs(diff) - 1);
  }

  /** Figure F.19 undoes figure F.4: the same value, and the same conditioning context for the next block. */
  lemma DcReads<D(!new)>(next: Source<D>, at: (D, History) -> bool, ds: History, d: D, h: History,
                         tbl: nat, p: Prediction, dc: int, lower: nat, upper: nat)
    requires Follows(next, at, ds) && at(d, h) && Abs(dc - p.last) <= 0x8000
    requires CodeDc(h, tbl, p, dc, lower, upper).h <= ds
    ensures var c := CodeDc(h, tbl, p, dc, lower, upper);
      && var r := ReadDc(next, d, tbl, p, lower, upper);
      && r.Good? && r.value == c.p && at(r.d, c.h)
  {
    if dc != p.last {
      var h1 := Put(h, DcArea(tbl), p.context, true);
      assert h1 <= CodeDc(h, tbl, p, dc, lower, upper).h;
      DifferenceReads(next, at, ds, next(d, Bin(DcArea(tbl), p.context)).1, h1, tbl, p.context, dc - p.last);
    }
  }

  lemma {:induction false} ZerosRead<D(!new)>(next: Source<D>, at: (D, History) -> bool, ds: History, d: D, h: History,
                                              tbl: nat, k: nat, ke: nat, z: seq<int>, se: nat)
    requires Follows(next, at, ds) && at(d, h)
    requires k < ke < |z| && z[ke] != 0 && ke <= se
    requires var c := SkipZeros(h, tbl, k, ke, z); Put(c.h, AcArea(tbl), 3 * (c.k - 1) + 1, true) <= ds
    ensures var c, r := SkipZeros(h, tbl, k, ke, z), ReadZeros(next, d, tbl, k, se);
      r.Good? && r.value == c.k && at(r.d, Put(c.h, AcArea(tbl), 3 * (c.k - 1) + 1, true))
    decreases ke - k
  {
    if z[k + 1] == 0 {
      var h1 := Put(h, AcArea(tbl), 3 * k + 1, false);
      assert h1 <= ds;
      ZerosRead(next, at, ds, next(d, Bin(AcArea(tbl), 3 * k + 1)).1, h1, tbl, k + 1, ke, z, se);
    }
  }

  lemma AcCategoryReads<D(!new)>(next: Source<D>, at: (D, History) -> bool, ds: History, d: D, h: History,
                                 tbl: nat, st: nat, high: bool, v: nat) returns (j: nat)
    requires Follows(next, at, ds) && at(d, h) && v < 0x8000
    requires var c := AcCategory(h, tbl, st, high, v); Put(c.h, AcArea(tbl), c.st, false) <= ds
    ensures var c := AcCategory(h, tbl, st, high, v);
      && ((c.m == 0 && v == 0) || (c.m == Pow2(j) && c.m <= v < 2 * c.m))
      && var r := ReadAcCategory(next, d, tbl, st, high);
      && r.Good? && r.value == Cat(c.st, c.m) && at(r.d, Put(c.h, AcArea(tbl), c.st, false))
  {
    j := 0;
    assert Pow2(0) == 1 && Pow2(1) == 2;
    var area := AcArea(tbl);
    if v > 0 {
      var h1 := Put(h, area, st, true);
      assert h1 <= ds;
      if v / 2 > 0 {
        assert 2 * Pow2(14) == 0x8000 by { Pow2Values(); assert Pow2(16) == 2 * Pow2(15) == 4 * Pow2(14); }
        var h2, base := Put(h1, area, st, true), if high then 217 else 189;
        assert h2 <= ds;
        var d2 := next(next(d, Bin(area, st)).1, Bin(area, st)).1;
        j := CategoryLeads(h2, area, base, 2, v / 2, v, 1);
        CategoryReads(next, at, ds, d2, h2, area, base, 2, v / 2, 1);
      }
    }
  }

  lemma AcMagnitudeReads<D(!new)>(next: Source<D>, at: (D, History) -> bool, ds: History, d: D, h: History,
                                  tbl: nat, st: nat, high: bool, v: nat)
    requires Follows(next, at, ds) && at(d, h) && v < 0x8000
    requires FinishMagnitude(AcCategory(h, tbl, st, high, v), AcArea(tbl), v) <= ds
    ensures var b := ReadMagnitude(next, ReadAcCategory(next, d, tbl, st, high), AcArea(tbl));
      b.Good? && b.value == v && at(b.d, FinishMagnitude(AcCategory(h, tbl, st, high, v), AcArea(tbl), v))
  {
    var area, c := AcArea(tbl), AcCategory(h, tbl, st, high, v);
    assert Put(c.h, area, c.st, false) <= FinishMagnitude(c, area, v);
    var j := AcCategoryReads(next, at, ds, d, h, tbl, st, high, v);
    MagnitudeReads(next, at, ds, ReadAcCategory(next, d, tbl, st, high).d, c, area, v, j);
  }

  /** Figures F.21 to F.24 undo figures F.6 to F.9, once the decoder knows that position k holds a coefficient. */
  lemma NonzeroReads<D(!new)>(next: Source<D>, at: (D, History) -> bool, ds: History, d: D, h: History,
                              tbl: nat, kx: nat, k: nat, value: int)
    requires Follows(next, at, ds) && k > 0 && 0 < Abs(value) <= 0x8000
    requires at(d, Put(h, AcArea(tbl), 3 * (k - 1) + 1, true))
    requires CodeNonzero(h, tbl, kx, k, value) <= ds
    ensures var r := ReadNonzero(next, d, tbl, kx, k);
      r.Good? && r.value == value && at(r.d, CodeNonzero(h, tbl, kx, k, value))
  {
    var h1 := Put(h, AcArea(tbl), 3 * (k - 1) + 1, true);
    var h2 := Put(h1, FixedArea, 0, value < 0);
    assert h2 <= CodeNonzero(h, tbl, kx, k, value);
    var d2 := next(d, Bin(FixedArea, 0)).1;
    AcMagnitudeReads(next, at, ds, d2, h2, tbl, 3 * (k - 1) + 2, k > kx, Abs(value) - 1);
  }

  /** The block after the coefficients at positions above k and up to ke have been stored. */
  ghost predicate Stored(before: Block, after: Block, order: seq<nat>, z: seq<int>, al: nat, k: nat, se: nat)
    requires Places(order) && se < 64 && se < |z|
  {
    && |before| == |after| == 64
    && (forall j :: k < j <= se ==> after[order[j]] == z[j] * Pow2(al))
    && (forall j :: 0 <= j < 64 && !(k < j <= se) ==> after[order[j]] == before[order[j]])
  }

  /** Storing the coefficient at position n, after zeros from k on, completes what the positions after n hold. */
  lemma StoredFrom(before: Block, after: Block, order: seq<nat>, z: seq<int>, al: nat, k: nat, n: nat, se: nat)
    requires IsOrder(order) && |before| == 64 && k < n <= se < 64 && |z| == se + 1
    requires Stored(before[order[n] := z[n] * Pow2(al)], after, order, z, al, n, se)
    requires forall j :: k < j < n ==> z[j] == 0 && before[order[j]] == 0
    ensures Stored(before, after, order, z, al, k, se)
  {
    forall j | k < j <= se
      ensures after[order[j]] == z[j] * Pow2(al)
    {
      if j < n {
        assert order[j] != order[n];
      }
    }
  }

  /** One round of the loop of figure F.5, from the decision that this is not the end of block. */
  lemma RoundReads<D(!new)>(next: Source<D>, at: (D, History) -> bool, ds: History, d: D, h: History,
                            tbl: nat, kx: nat, k: nat, ke: nat, se: nat, z: seq<int>)
    requires Follows(next, at, ds) && at(d, h)
    requires k < ke <= se < |z| && z[ke] != 0 && forall j :: 0 < j <= se ==> Abs(z[j]) <= 0x8000
    requires AfterRound(h, tbl, kx, k, ke, z).h <= ds
    ensures !next(d, Bin(AcArea(tbl), 3 * k)).0
    ensures var a, r := AfterRound(h, tbl, kx, k, ke, z), ReadZeros(next, next(d, Bin(AcArea(tbl), 3 * k)).1, tbl, k, se);
      && r.Good? && r.value == a.k
      && var v := ReadNonzero(next, r.d, tbl, kx, a.k);
      && v.Good? && v.value == z[a.k] && at(v.d, a.h)
  {
    var area := AcArea(tbl);
    var h1 := Put(h, area, 3 * k, false);
    var s := SkipZeros(h1, tbl, k, ke, z);
    var h2 := Put(s.h, area, 3 * (s.k - 1) + 1, true);
    assert h1 <= ds && h2 <= ds;
    var d1 := next(d, Bin(area, 3 * k)).1;
    ZerosRead(next, at, ds, d1, h1, tbl, k, ke, z, se);
    NonzeroReads(next, at, ds, ReadZeros(next, d1, tbl, k, se).d, s.h, tbl, kx, s.k, z[s.k]);
  }

  /** The coefficients after k are read back into a block that holds zeros there. */
  lemma {:induction false} AcFromReads<D(!new)>(next: Source<D>, at: (D, History) -> bool, ds: History, d: D,
                                                h: History, tbl: nat, kx: nat, k: nat, ke: nat, se: nat,
                                                z: seq<int>, order: seq<nat>, al: nat, block: Block)
    requires Follows(next, at, ds) && at(d, h)
    requires IsOrder(order) && |block| == 64 && se < 64 && |z| == se + 1
    requires ke <= se && (k < ke ==> z[ke] != 0) && (forall j :: ke < j <= se ==> z[j] == 0)
    requires forall j :: 0 < j <= se ==> Abs(z[j]) <= 0x8000
    requires forall j :: k < j <= se ==> block[order[j]] == 0
    requires EndAc(CodeAcFrom(h, tbl, kx, k, ke, z), tbl, se) <= ds
    ensures var r := ReadAcFrom(next, d, tbl, kx, k, se, order, al, block);
      && r.Good? && Stored(block, r.value, order, z, al, k, se)
      && at(r.d, EndAc(CodeAcFrom(h, tbl, kx, k, ke, z), tbl, se))
    decreases ke - k
  {
    if k < ke {
      var a := AfterRound(h, tbl, kx, k, ke, z);
      var n := a.k;
      assert a.h <= CodeAcFrom(h, tbl, kx, k, ke, z).h;
      RoundReads(next, at, ds, d, h, tbl, kx, k, ke, se, z);
      var r := ReadZeros(next, next(d, Bin(AcArea(tbl), 3 * k)).1, tbl, k, se);
      var d' := ReadNonzero(next, r.d, tbl, kx, n).d;
      var block' := block[order[n] := z[n] * Pow2(al)];
      AcFromReads(next, at, ds, d', a.h, tbl, kx, n, ke, se, z, order, al, block');
      StoredFrom(block, ReadAcFrom(next, d', tbl, kx, n, se, order, al, block').value, order, z, al, k, n, se);
    }
  }

  /** Figure F.20 undoes figure F.5 for the band ss..se of a block that holds zeros there. */
  lemma AcReads<D(!new)>(next: Source<D>, at: (D, History) -> bool, ds: History, d: D, h: History,
                         tbl: nat, kx: nat, ss: nat, se: nat, z: seq<int>, order: seq<nat>, al: nat, block: Block)
    requires Follows(next, at, ds) && at(d, h)
    requires IsOrder(order) && |block| == 64 && 0 < ss <= se < 64 && |z| == se + 1
    requires forall j :: 0 < j <= se ==> Abs(z[j]) <= 0x8000
    requires forall j :: ss <= j <= se ==> block[order[j]] == 0
    requires CodeAc(h, tbl, kx, ss, se, z) <= ds
    ensures var r := ReadAcFrom(next, d, tbl, kx, ss - 1, se, order, al, block);
      && r.Good? && Stored(block, r.value, order, z, al, ss - 1, se)
      && at(r.d, CodeAc(h, tbl, kx, ss, se, z))
  {
    var ke := EndOfBlock(z, se);
    AcFromReads(next, at, ds, d, h, tbl, kx, ss - 1, ke, se, z, order, al, block);
  }
}
