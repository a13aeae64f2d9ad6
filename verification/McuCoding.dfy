/** The binarization of coefficients (sections F.1.4 and G.1.3): which decisions, in which bins. Every function
    takes the decisions coded so far and returns them with its own appended. */
module McuCoding {
  import opened Numbers
  import opened IntervalCoder
  import opened JpegScan

  datatype Category = Category(h: History, st: nat, m: nat)

  /** Figure F.8: the rest of the magnitude category; m is the leading bit found so far. */
  function CategoryFrom(h: History, area: Area, st: nat, m: nat, v2: nat): (r: Category)
    ensures h <= r.h
    decreases v2
  {
    if v2 / 2 == 0 then Category(h, st, m)
    else CategoryFrom(Put(h, area, st, true), area, st + 1, 2 * m, v2 / 2)
  }

  /** Figure F.9: the bits of v below the leading bit m. */
  function BitsBelow(h: History, area: Area, st: nat, m: nat, v: nat): (r: History)
    ensures h <= r
    decreases m
  {
    if m / 2 == 0 then h
    else BitsBelow(Put(h, area, st, v / (m / 2) % 2 == 1), area, st, m / 2, v)
  }

  /** Categories end with a 0 decision; the bit pattern has its bin 14 places further on. */
  function FinishMagnitude(c: Category, area: Area, v: nat): (r: History)
    ensures c.h <= r
  {
    BitsBelow(Put(c.h, area, c.st, false), area, c.st + 14, c.m, v)
  }

  function DcCategory(h: History, tbl: nat, st: nat, v: nat): (r: Category)
    ensures h <= r.h
  {
    if v == 0 then Category(h, st, 0)
    else CategoryFrom(Put(h, DcArea(tbl), st, true), DcArea(tbl), 20, 1, v)
  }

  /** The DC prediction of a component and the conditioning context left by its last difference. */
  datatype Prediction = Prediction(last: int, context: nat)

  const NO_PREDICTION := Prediction(0, 0)

  /** Section F.1.4.4.1.2: small, large or zero difference, by the leading bit m of the magnitude. */
  function DcContext(m: nat, negative: bool, lower: nat, upper: nat): nat
  {
    if m < Pow2(lower) / 2 then 0
    else (if negative then 8 else 4) + (if m > Pow2(upper) / 2 then 8 else 0)
  }

  /** Figure F.6: the sign and magnitude of a nonzero difference; m is its leading bit. */
  function CodeDifference(h: History, tbl: nat, context: nat, diff: int): (r: Category)
    requires diff != 0
    ensures h <= r.h
  {
    var signed := Put(h, DcArea(tbl), context + 1, diff < 0);
    var c := DcCategory(signed, tbl, context + (if diff < 0 then 3 else 2), Abs(diff) - 1);
    c.(h := FinishMagnitude(c, DcArea(tbl), Abs(diff) - 1))
  }

  datatype DcCoded = DcCoded(h: History, p: Prediction)

  /** Figure F.4: the difference of a DC value to its prediction. */
  function CodeDc(h: History, tbl: nat, p: Prediction, dc: int, lower: nat, upper: nat): (r: DcCoded)
    ensures h <= r.h && r.p.last == dc
  {
    var diff := dc - p.last;
    if diff == 0 then DcCoded(Put(h, DcArea(tbl), p.context, false), Prediction(p.last, 0))
    else
      var c := CodeDifference(Put(h, DcArea(tbl), p.context, true), tbl, p.context, diff);
      DcCoded(c.h, Prediction(dc, DcContext(c.m, diff < 0, lower, upper)))
  }

  function AcCategory(h: History, tbl: nat, st: nat, high: bool, v: nat): (r: Category)
    ensures h <= r.h
  {
    if v == 0 then Category(h, st, 0)
    else if v / 2 == 0 then Category(Put(h, AcArea(tbl), st, true), st, 1)
    else CategoryFrom(Put(Put(h, AcArea(tbl), st, true), AcArea(tbl), st, true),
                      AcArea(tbl), if high then 217 else 189, 2, v / 2)
  }

  /** The index of the last nonzero coefficient, 0 if there is none. */
  function EndOfBlock(z: seq<int>, ke: nat): (r: nat)
    requires ke < |z|
    ensures r <= ke && (r > 0 ==> z[r] != 0)
    ensures forall k :: r < k <= ke ==> z[k] == 0
  {
    if ke == 0 || z[ke] != 0 then ke else EndOfBlock(z, ke - 1)
  }

  datatype AcCoded = AcCoded(h: History, k: nat)

  /** The decisions for the zero coefficients after position k, up to the next nonzero one. */
  function SkipZeros(h: History, tbl: nat, k: nat, ke: nat, z: seq<int>): (r: AcCoded)
    requires k < ke < |z| && z[ke] != 0
    ensures h <= r.h && k < r.k <= ke && z[r.k] != 0
    ensures forall j :: k < j < r.k ==> z[j] == 0
    decreases ke - k
  {
    if z[k + 1] != 0 then AcCoded(h, k + 1)
    else SkipZeros(Put(h, AcArea(tbl), 3 * k + 1, false), tbl, k + 1, ke, z)
  }

  /** Figure F.6: a nonzero AC coefficient at position k. */
  function CodeNonzero(h: History, tbl: nat, kx: nat, k: nat, value: int): (r: History)
    requires k > 0 && value != 0
    ensures h <= r
  {
    var signed := Put(Put(h, AcArea(tbl), 3 * (k - 1) + 1, true), FixedArea, 0, value < 0);
    var v := Abs(value) - 1;
    FinishMagnitude(AcCategory(signed, tbl, 3 * (k - 1) + 2, k > kx, v), AcArea(tbl), v)
  }

  /** One round of figure F.5: not the end of block, the zeros that follow, the next nonzero coefficient. */
  function AfterRound(h: History, tbl: nat, kx: nat, k: nat, ke: nat, z: seq<int>): (r: AcCoded)
    requires k < ke < |z| && z[ke] != 0
    ensures h <= r.h && k < r.k <= ke && z[r.k] != 0 && forall j :: k < j < r.k ==> z[j] == 0
  {
    var s := SkipZeros(Put(h, AcArea(tbl), 3 * k, false), tbl, k, ke, z);
    AcCoded(CodeNonzero(s.h, tbl, kx, s.k, z[s.k]), s.k)
  }

  /** Figure F.5: the coefficients after position k, up to the end of block ke. */
  function CodeAcFrom(h: History, tbl: nat, kx: nat, k: nat, ke: nat, z: seq<int>): (r: AcCoded)
    requires ke < |z| && (k < ke ==> z[ke] != 0)
    ensures h <= r.h && (k <= ke ==> r.k == ke) && (k >= ke ==> r.k == k)
    decreases ke - k
  {
    if k >= ke then AcCoded(h, k)
    else
      var a := AfterRound(h, tbl, kx, k, ke, z);
      CodeAcFrom(a.h, tbl, kx, a.k, ke, z)
  }

  /** The end-of-block decision, made only when the band is not full. */
  function EndAc(c: AcCoded, tbl: nat, se: nat): (r: History)
    ensures c.h <= r
  {
    if c.k < se then Put(c.h, AcArea(tbl), 3 * c.k, true) else c.h
  }

  /** The AC coefficients ss..se. */
  function CodeAc(h: History, tbl: nat, kx: nat, ss: nat, se: nat, z: seq<int>): (r: History)
    requires 0 < ss <= se < |z|
    ensures h <= r
  {
    EndAc(CodeAcFrom(h, tbl, kx, ss - 1, EndOfBlock(z, se), z), tbl, se)
  }

  /** Section G.1.3.3: a coefficient at position k in a refinement scan. One that was nonzero before the scan
      gets its next bit; a new one its sign. */
  function RefineNonzero(h: History, tbl: nat, k: nat, value: int): (r: History)
    requires k > 0
    ensures h <= r
  {
    if Abs(value) / 2 != 0 then Put(h, AcArea(tbl), 3 * (k - 1) + 2, Abs(value) % 2 == 1)
    else Put(Put(h, AcArea(tbl), 3 * (k - 1) + 1, true), FixedArea, 0, value < 0)
  }

  /** Figure G.10: no end-of-block decision is made before kex, the end of block of the previous stage. */
  function NotEnd(h: History, tbl: nat, k: nat, kex: nat): (r: History)
    ensures h <= r
  {
    if k >= kex then Put(h, AcArea(tbl), 3 * k, false) else h
  }

  function AfterRefined(h: History, tbl: nat, k: nat, ke: nat, kex: nat, z: seq<int>): (r: AcCoded)
    requires k < ke < |z| && z[ke] != 0
    ensures h <= r.h && k < r.k <= ke && z[r.k] != 0 && forall j :: k < j < r.k ==> z[j] == 0
  {
    var s := SkipZeros(NotEnd(h, tbl, k, kex), tbl, k, ke, z);
    AcCoded(RefineNonzero(s.h, tbl, s.k, z[s.k]), s.k)
  }

  function RefineAcFrom(h: History, tbl: nat, k: nat, ke: nat, kex: nat, z: seq<int>): (r: AcCoded)
    requires ke < |z| && (k < ke ==> z[ke] != 0)
    ensures h <= r.h && (k <= ke ==> r.k == ke) && (k >= ke ==> r.k == k)
    decreases ke - k
  {
    if k >= ke then AcCoded(h, k)
    else
      var a := AfterRefined(h, tbl, k, ke, kex, z);
      RefineAcFrom(a.h, tbl, a.k, ke, kex, z)
  }

  /** The refinement of the band ss..se; z and w are the coefficients after the new and the previous transform. */
  function RefineAc(h: History, tbl: nat, ss: nat, se: nat, z: seq<int>, w: seq<int>): (r: History)
    requires 0 < ss <= se < |z| && |w| == |z|
    ensures h <= r
  {
    var ke := EndOfBlock(z, se);
    EndAc(RefineAcFrom(h, tbl, ss - 1, ke, EndOfBlock(w, ke), z), tbl, se)
  }
}
