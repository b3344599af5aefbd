/** Assignment of the pixels of a power spectrum to polar bins: an angular
    sector times a radial ring, numbered angular * nbinsRadial + radial. */
module PolarBinning {

  import opened Arith

  datatype Option<T> = None | Some(value: T)

  /** Polar coordinates of one pixel about the image centre: its distance
      from the centre in pixels and its angle as a fraction of a full turn
      (the angle in radians divided by 2 pi). */
  datatype Polar = Polar(radius: real, turn: real)

  /** numpy's float-to-int cast: truncation toward zero. */
  function Trunc(x: real): (k: int)
    ensures x >= 0.0 ==> k >= 0 && k as real <= x < k as real + 1.0
    ensures x < 0.0 ==> k <= 0 && k as real - 1.0 < x <= k as real
  {
    if x >= 0.0 then x.Floor else -((-x).Floor)
  }

  /** numpy's clip: the larger of v and lo, capped at hi. */
  function Clip(v: int, lo: int, hi: int): (r: int)
    ensures lo <= hi ==> lo <= r <= hi
    ensures lo <= v <= hi ==> r == v
  {
    var m := if v < lo then lo else v;
    if m > hi then hi else m
  }

  /** A pixel is binned only strictly inside the annulus inner < r < outer. */
  predicate InAnnulus(p: Polar, inner: int, outer: int)
  {
    inner as real < p.radius < outer as real
  }

  /** Position of a radius on the ring scale: 0 at inner, nR at outer. */
  function RadialPosition(radius: real, inner: int, outer: int, nR: int): real
    requires inner as real < radius < outer as real
  {
    (nR as real) * (radius - inner as real) / ((outer - inner) as real)
  }

  /** Index of the radial ring: nR equal rings between inner and outer. */
  function RadialIndex(radius: real, inner: int, outer: int, nR: int): int
    requires inner as real < radius < outer as real
  {
    Trunc(RadialPosition(radius, inner, outer, nR))
  }

  /** Index of the angular sector: nA equal sectors of the full turn. */
  function AngularIndex(turn: real, nA: int): (a: int)
    ensures nA >= 1 ==> 0 <= a < nA
  {
    Clip(((nA as real) * turn).Floor, 0, nA - 1)
  }

  /** The combined bin id of a pixel, or -1 outside the annulus. */
  function BinId(p: Polar, inner: int, outer: int, nA: int, nR: int): int
  {
    if InAnnulus(p, inner, outer) then
      AngularIndex(p.turn, nA) * nR + RadialIndex(p.radius, inner, outer, nR)
    else
      -1
  }

  /** The number of radial rings: as given, or one per pixel of radius. */
  function RadialCount(inner: int, outer: int, nbinsRadial: Option<int>): int
  {
    match nbinsRadial
    case None => outer - inner
    case Some(n) => n
  }

  /** The bin id of every pixel (pixels in row-major order). */
  function PolarBins(pixels: seq<Polar>, inner: int, outer: int, nA: int, nbinsRadial: Option<int>): (bins: seq<int>)
    ensures |bins| == |pixels|
  {
    var nR := RadialCount(inner, outer, nbinsRadial);
    seq(|pixels|, k requires 0 <= k < |pixels| => BinId(pixels[k], inner, outer, nA, nR))
  }

  /** Inner edge of ring k when nR equal rings span inner to outer. */
  function RingEdge(k: int, inner: int, outer: int, nR: int): real
    requires nR != 0
  {
    inner as real + (k as real) * ((outer - inner) as real) / (nR as real)
  }

  lemma PositionBounds(n: real, u: real, d: real)
    requires n >= 1.0 && 0.0 < u < d
    ensures 0.0 <= n * u / d < n
  {
    MulKeepsOrder(0.0, u, n);
    MulKeepsOrder(u, d, n);
    DivKeepsOrder(0.0, n * u, d);
    DivKeepsOrder(n * u, d * n, d);
    MulDivCancel(n, d);
    assert d * n == n * d;
  }

  lemma PositionVersusEdge(k: real, n: real, u: real, d: real)
    requires n >= 1.0 && d > 0.0
    ensures k <= n * u / d ==> k * d / n <= u
    ensures n * u / d < k ==> u < k * d / n
  {
    MulDivCancel(n * u, d);
    MulKeepsOrder(k, n * u / d, d);
    MulKeepsOrder(n * u / d, k, d);
    DivKeepsOrder(k * d, n * u, n);
    DivKeepsOrder(n * u, k * d, n);
    MulDivCancel(u, n);
    assert n * u == u * n;
  }

  /** A radius lies at or beyond the inner edge of ring k exactly when its
      position on the ring scale is at least k. */
  lemma EdgeOrder(k: int, radius: real, inner: int, outer: int, nR: int)
    requires inner as real < radius < outer as real
    requires nR >= 1
    ensures k as real <= RadialPosition(radius, inner, outer, nR) ==> RingEdge(k, inner, outer, nR) <= radius
    ensures RadialPosition(radius, inner, outer, nR) < k as real ==> radius < RingEdge(k, inner, outer, nR)
  {
    PositionVersusEdge(k as real, nR as real, radius - inner as real, (outer - inner) as real);
  }

  /** A pixel inside the annulus falls in one of the nR rings, and its ring
      is the one whose radial interval contains its radius. */
  lemma RadialIndexInRange(radius: real, inner: int, outer: int, nR: int)
    requires inner as real < radius < outer as real
    requires nR >= 1
    ensures var k := RadialIndex(radius, inner, outer, nR);
      && 0 <= k < nR
      && RingEdge(k, inner, outer, nR) <= radius < RingEdge(k + 1, inner, outer, nR)
  {
    PositionBounds(nR as real, radius - inner as real, (outer - inner) as real);
    var k := RadialIndex(radius, inner, outer, nR);
    EdgeOrder(k, radius, inner, outer, nR);
    EdgeOrder(k + 1, radius, inner, outer, nR);
  }

  /** With the default ring count every ring is one pixel wide. */
  lemma DefaultRingIsUnitWide(radius: real, inner: int, outer: int)
    requires inner as real < radius < outer as real
    ensures var k := RadialIndex(radius, inner, outer, RadialCount(inner, outer, None));
      && 0 <= k < outer - inner
      && inner as real + k as real <= radius < inner as real + k as real + 1.0
  {
    var nR := outer - inner;
    RadialIndexInRange(radius, inner, outer, nR);
    var d := nR as real;
    var k := RadialIndex(radius, inner, outer, nR);
    MulDivCancel(k as real, d);
    MulDivCancel(k as real + 1.0, d);
    assert RingEdge(k, inner, outer, nR) == inner as real + k as real;
    assert RingEdge(k + 1, inner, outer, nR) == inner as real + k as real + 1.0;
  }

  lemma SectorBounds(f: int, n: real, t: real)
    requires n >= 1.0 && f as real <= n * t < (f + 1) as real
    ensures (f as real) / n <= t < ((f + 1) as real) / n
  {
    DivKeepsOrder(f as real, n * t, n);
    DivKeepsOrder(n * t, (f + 1) as real, n);
    MulDivCancel(t, n);
    assert n * t == t * n;
  }

  lemma FloorBelow(n: real, t: real)
    requires n >= 1.0 && 0.0 <= t < 1.0
    ensures 0.0 <= n * t < n
  {
    MulKeepsOrder(0.0, t, n);
    MulKeepsOrder(t, 1.0, n);
  }

  /** The sector index lies in [0, nA); for an angle in [0, 1) turn it is the
      sector that contains the angle. */
  lemma AngularIndexInRange(turn: real, nA: int)
    requires nA >= 1
    ensures 0 <= AngularIndex(turn, nA) < nA
    ensures 0.0 <= turn < 1.0 ==>
      var a := AngularIndex(turn, nA);
      (a as real) / (nA as real) <= turn < ((a + 1) as real) / (nA as real)
  {
    if 0.0 <= turn < 1.0 {
      var n := nA as real;
      FloorBelow(n, turn);
      var f := (n * turn).Floor;
      assert AngularIndex(turn, nA) == f;
      SectorBounds(f, n, turn);
    }
  }

  /** A pixel's bin id is -1 exactly when it lies outside the open annulus. */
  lemma OutsideIffMinusOne(pixels: seq<Polar>, inner: int, outer: int, nA: int, nbinsRadial: Option<int>, k: int)
    requires 0 <= k < |pixels|
    requires nA >= 1 && RadialCount(inner, outer, nbinsRadial) >= 1
    ensures PolarBins(pixels, inner, outer, nA, nbinsRadial)[k] == -1 <==> !InAnnulus(pixels[k], inner, outer)
  {
    var p, nR := pixels[k], RadialCount(inner, outer, nbinsRadial);
    if InAnnulus(p, inner, outer) {
      RadialIndexInRange(p.radius, inner, outer, nR);
      AngularIndexInRange(p.turn, nA);
      MulMonotone(0, AngularIndex(p.turn, nA), nR);
    }
  }

  /** A binned pixel's id lies in [0, nA * nR), and division and remainder by
      nR give back its sector and its ring. */
  lemma BinIdDecodes(p: Polar, inner: int, outer: int, nA: int, nR: int)
    requires InAnnulus(p, inner, outer)
    requires nA >= 1 && nR >= 1
    ensures var id := BinId(p, inner, outer, nA, nR);
      && 0 <= id < nA * nR
      && id / nR == AngularIndex(p.turn, nA)
      && id % nR == RadialIndex(p.radius, inner, outer, nR)
  {
    RadialIndexInRange(p.radius, inner, outer, nR);
    AngularIndexInRange(p.turn, nA);
    var a, r := AngularIndex(p.turn, nA), RadialIndex(p.radius, inner, outer, nR);
    var id := a * nR + r;
    RowMajorBelow(a, r, nA, nR);
    DivModUnique(id, nR, a, r);
  }
}
