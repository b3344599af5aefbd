/** Locating the hexagonal spots of a power spectrum and turning their
    radius into an image scale. */
module Spots {

  import opened Arith
  import opened PolarBinning
  import opened Unrolling
  import opened ScaleErrors

  /** Number of angular sectors used when unrolling for spot detection; the
      angle shift of the best match divides by the same number. */
  const SECTORS := 64

  /** Innermost radius searched by find_circular_spots. */
  const SPOT_INNER := 3

  /** Columns of the matching template: 2 * margin + 1 with the default
      margin of one row. */
  const TEMPLATE_WIDTH := 3

  /** sqrt(3) / 2 to double precision: the spacing of the (1, 0) lattice
      planes of a hexagonal lattice is this times the lattice constant. */
  const HALF_SQRT3 := 0.8660254037844386

  /** Three quarters is the square of HALF_SQRT3 up to double rounding. */
  lemma HalfSqrt3Squared()
    ensures -0.000000000000001 < 4.0 * HALF_SQRT3 * HALF_SQRT3 - 3.0 < 0.000000000000001
  {
  }

  // ---------------------------------------------------------------------
  // Wrap padding of the unrolled rows (np.pad with mode 'wrap')

  /** The rows of u with the last n/2 rows put before them and the first
      n/2 rows after them, n = |u|. */
  function WrapPad<T>(u: seq<T>): (r: seq<T>)
    ensures |r| == |u| + 2 * (|u| / 2)
    ensures r[|u| / 2..|u| / 2 + |u|] == u
  {
    var n := |u|;
    u[n - n / 2..] + u + u[..n / 2]
  }

  /** The padded table has n/2 extra rows at each end, and its row i is row
      (i - n/2) mod n of u: padding continues the rows periodically. */
  lemma WrapPadRows<T>(u: seq<T>)
    ensures |WrapPad(u)| == |u| + 2 * (|u| / 2)
    ensures |u| > 0 ==> forall i :: 0 <= i < |WrapPad(u)| ==> WrapPad(u)[i] == u[(i - |u| / 2) % |u|]
  {
    var n := |u|;
    var h := n / 2;
    var r := WrapPad(u);
    if n > 0 {
      forall i | 0 <= i < |r|
        ensures r[i] == u[(i - h) % n]
      {
        if i < h {
          DivModUnique(i - h, n, -1, n - h + i);
        } else if i < h + n {
          DivModUnique(i - h, n, 0, i - h);
        } else {
          DivModUnique(i - h, n, 1, i - h - n);
        }
      }
    }
  }

  // ---------------------------------------------------------------------
  // find_circular_spots and find_hexagonal_spots

  /** Row and column of the best template match in the correlation map
      (the argmax of cv2.matchTemplate's output, supplied by the caller). */
  datatype Match = Match(row: int, col: int)

  /** The spots found: their common radius in pixels and their angles in
      turns. */
  datatype Spots = Spots(radial: real, turns: seq<real>)

  /** The radius reported for a match: the centre of the ring under the
      middle column of the three-column template. */
  function SpotRadius(best: Match, inner: int): real
  {
    best.col as real + inner as real + 1.0 + 0.5
  }

  /** Each template angle shifted by the centre of the matched sector. */
  function SpotTurns(turns: seq<real>, best: Match): (r: seq<real>)
    ensures |r| == |turns|
  {
    seq(|turns|, k requires 0 <= k < |turns| => turns[k] + (best.row as real + 0.5) / (SECTORS as real))
  }

  /** find_circular_spots on a power spectrum (sx by sy, row-major, with the
      polar coordinates of its pixels), for the template angles `turns`:
      fails where unrolling fails, where the table leaves nothing to
      normalise by, and where the SECTORS by TEMPLATE_WIDTH template does
      not fit inside the wrap-padded table (cv2.matchTemplate refuses a
      template larger than the image). */
  function FindCircularSpots(spectrum: seq<real>, sx: nat, sy: nat, pixels: seq<Polar>,
                             turns: seq<real>, inner: int, best: Match): (r: Result<Spots>)
    requires |spectrum| == sx * sy && |pixels| == |spectrum|
    ensures sx != sy ==> r == Err(NotSquare)
    ensures Unroll(spectrum, sx, sy, pixels, inner, None, SECTORS, None).Err? ==>
              r == Err(Unroll(spectrum, sx, sy, pixels, inner, None, SECTORS, None).error)
    ensures r.Ok? ==>
      var u := Unroll(spectrum, sx, sy, pixels, inner, None, SECTORS, None).value;
      && 0 < sx == sy && |r.value.turns| == |turns|
      && |u| > 0 && |WrapPad(u)| >= SECTORS && |u[0]| >= TEMPLATE_WIDTH
  {
    match Unroll(spectrum, sx, sy, pixels, inner, None, SECTORS, None)
    case Err(e) => Err(e)
    case Ok(u) =>
      if |u| == 0 || |u[0]| == 0 then Err(EmptyField)
      else if |WrapPad(u)| < SECTORS || |u[0]| < TEMPLATE_WIDTH then Err(TemplateTooLarge)
      else Ok(Spots(SpotRadius(best, inner), SpotTurns(turns, best)))
  }

  /** With the default one-pixel rings, every pixel of the ring under the
      template's middle column lies within half a pixel of the reported
      radius. */
  lemma SpotRadiusIsRingCentre(p: Polar, inner: int, outer: int, best: Match)
    requires InAnnulus(p, inner, outer)
    requires RadialIndex(p.radius, inner, outer, RadialCount(inner, outer, None)) == best.col + 1
    ensures SpotRadius(best, inner) - 0.5 <= p.radius < SpotRadius(best, inner) + 0.5
  {
    DefaultRingIsUnitWide(p.radius, inner, outer);
  }

  /** The reported angles are the template angles all turned by the same
      amount: the pattern is rotated rigidly, never distorted. */
  lemma SpotsTurnRigidly(spectrum: seq<real>, sx: nat, sy: nat, pixels: seq<Polar>,
                         turns: seq<real>, inner: int, best: Match, k: int, l: int)
    requires |spectrum| == sx * sy && |pixels| == |spectrum|
    requires FindCircularSpots(spectrum, sx, sy, pixels, turns, inner, best).Ok?
    requires 0 <= k < |turns| && 0 <= l < |turns|
    ensures var s := FindCircularSpots(spectrum, sx, sy, pixels, turns, inner, best).value.turns;
      s[k] - s[l] == turns[k] - turns[l]
  {
  }

  /** The six hexagonal template angles, k/6 of a turn for k = 0 .. 5. */
  function HexagonalTurns(): (r: seq<real>)
    ensures |r| == 6
  {
    seq(6, k requires 0 <= k < 6 => k as real / 6.0)
  }

  /** find_hexagonal_spots: the circular search with the six-fold template. */
  function FindHexagonalSpots(spectrum: seq<real>, sx: nat, sy: nat, pixels: seq<Polar>, best: Match): (r: Result<Spots>)
    requires |spectrum| == sx * sy && |pixels| == |spectrum|
    ensures r.Ok? ==> 0 < sx == sy && |r.value.turns| == 6
  {
    FindCircularSpots(spectrum, sx, sy, pixels, HexagonalTurns(), SPOT_INNER, best)
  }

  /** The hexagonal spots are six, a sixth of a turn apart. */
  lemma HexagonalSpotsAreSixfold(spectrum: seq<real>, sx: nat, sy: nat, pixels: seq<Polar>, best: Match, k: int)
    requires |spectrum| == sx * sy && |pixels| == |spectrum|
    requires FindHexagonalSpots(spectrum, sx, sy, pixels, best).Ok?
    requires 0 <= k < 6
    ensures var s := FindHexagonalSpots(spectrum, sx, sy, pixels, best).value.turns;
      s[k] == s[0] + k as real / 6.0
  {
    SpotsTurnRigidly(spectrum, sx, sy, pixels, HexagonalTurns(), SPOT_INNER, best, k, 0);
  }

  // ---------------------------------------------------------------------
  // find_hexagonal_scale and detect_scale

  /** Image scale (lattice-constant units per pixel) from the spot radius
      in a size-by-size power spectrum. */
  function HexagonalScale(radial: real, a: real, size: nat): real
    requires size > 0
  {
    radial * a / (size as real) * HALF_SQRT3
  }

  /** A spot at radius `radial` is a fringe with a period of size / radial
      pixels; the scale is what makes that period span the plane spacing
      a * sqrt(3) / 2. */
  lemma ScaleSpansPlaneSpacing(radial: real, a: real, size: nat)
    requires size > 0 && radial != 0.0
    ensures HexagonalScale(radial, a, size) * ((size as real) / radial) == a * HALF_SQRT3
  {
    PeriodCancels(radial, a, size as real, HALF_SQRT3);
  }

  lemma PeriodCancels(radial: real, a: real, n: real, h: real)
    requires n > 0.0 && radial != 0.0
    ensures radial * a / n * h * (n / radial) == a * h
  {
    var x := radial * a / n;
    MulDivCancel(radial * a, n);
    assert x * n == radial * a;
    assert x * (n / radial) == (x * n) / radial;
    assert x * (n / radial) == a;
    assert x * h * (n / radial) == (x * (n / radial)) * h;
  }

  /** The scale grows with the spot radius when the lattice constant is
      positive. */
  lemma ScaleGrowsWithRadius(r1: real, r2: real, a: real, size: nat)
    requires size > 0 && a > 0.0 && r1 < r2
    ensures HexagonalScale(r1, a, size) < HexagonalScale(r2, a, size)
  {
    var n := size as real;
    MulKeepsOrder(r1, r2, a);
    DivKeepsOrder(r1 * a, r2 * a, n);
    MulKeepsOrder(r1 * a / n, r2 * a / n, HALF_SQRT3);
  }

  /** find_hexagonal_scale on the power spectrum of an sx by sy image. */
  function FindHexagonalScale(spectrum: seq<real>, sx: nat, sy: nat, pixels: seq<Polar>, best: Match, a: real): (r: Result<real>)
    requires |spectrum| == sx * sy && |pixels| == |spectrum|
    ensures FindHexagonalSpots(spectrum, sx, sy, pixels, best).Err? ==>
              r == Err(FindHexagonalSpots(spectrum, sx, sy, pixels, best).error)
  {
    match FindHexagonalSpots(spectrum, sx, sy, pixels, best)
    case Err(e) => Err(e)
    case Ok(s) => Ok(HexagonalScale(s.radial, a, MinSide(sx, sy)))
  }

  /** ScaleDetectionModule.detect_scale, with the module's crystal system
      (None before the parameters are fetched) and lattice constant: only
      the hexagonal system is recognised. */
  function DetectScale(crystalSystem: Option<string>, latticeConstant: real,
                       spectrum: seq<real>, sx: nat, sy: nat, pixels: seq<Polar>, best: Match): (r: Result<real>)
    requires |spectrum| == sx * sy && |pixels| == |spectrum|
    ensures crystalSystem != Some("hexagonal") ==> r == Err(UnrecognizedStructure)
    ensures r.Ok? ==>
      && crystalSystem == Some("hexagonal") && 0 < sx == sy
      && r.value == HexagonalScale(SpotRadius(best, SPOT_INNER), latticeConstant, sx)
  {
    if crystalSystem == Some("hexagonal") then
      FindHexagonalScale(spectrum, sx, sy, pixels, best, latticeConstant)
    else
      Err(UnrecognizedStructure)
  }
}
