/** Unrolling of a power spectrum into an (angle, radius) table: the mean of
    the spectrum over each polar bin, reshaped to angular rows and radial
    columns, with empty bins filled by periodic linear interpolation along
    the angle. */
module Unrolling {

  import opened Floats
  import opened Arith
  import opened PolarBinning
  import opened ScaleErrors

  // ---------------------------------------------------------------------
  // Per-bin statistics (ndimage.mean over an explicit range of ids)

  /** Number of pixels carrying the id. */
  function LabelCount(bins: seq<int>, id: int): nat
  {
    if |bins| == 0 then 0 else (if bins[0] == id then 1 else 0) + LabelCount(bins[1..], id)
  }

  /** Sum of the field over the pixels carrying the id. */
  function LabelSum(f: seq<real>, bins: seq<int>, id: int): real
    requires |f| == |bins|
  {
    if |f| == 0 then 0.0 else (if bins[0] == id then f[0] else 0.0) + LabelSum(f[1..], bins[1..], id)
  }

  /** Mean of the field over the pixels of an id; NaN when no pixel carries it. */
  function LabelMean(f: seq<real>, bins: seq<int>, id: int): Float
    requires |f| == |bins|
  {
    var n := LabelCount(bins, id);
    if n == 0 then NonFinite else Finite(LabelSum(f, bins, id) / n as real)
  }

  /** Some pixel carries the id. */
  predicate Labelled(bins: seq<int>, id: int)
  {
    exists k :: 0 <= k < |bins| && bins[k] == id
  }

  lemma {:induction false} LabelCountPositive(bins: seq<int>, id: int)
    ensures LabelCount(bins, id) > 0 <==> Labelled(bins, id)
  {
    if |bins| > 0 {
      LabelCountPositive(bins[1..], id);
      if Labelled(bins[1..], id) {
        var k :| 0 <= k < |bins[1..]| && bins[1..][k] == id;
        assert bins[k + 1] == id;
      }
      if Labelled(bins, id) && bins[0] != id {
        var k :| 0 <= k < |bins| && bins[k] == id;
        assert bins[1..][k - 1] == id;
      }
    }
  }

  /** n copies of v added up: the induction below adds one pixel at a time,
      and stays within linear arithmetic this way. */
  function Times(n: nat, v: real): real
  {
    if n == 0 then 0.0 else v + Times(n - 1, v)
  }

  lemma {:induction false} TimesIsProduct(n: nat, v: real)
    ensures Times(n, v) == (n as real) * v
  {
    if n > 0 {
      TimesIsProduct(n - 1, v);
      assert (n as real) * v == ((n - 1) as real) * v + v;
    }
  }

  lemma {:induction false} LabelSumBetweenCopies(f: seq<real>, bins: seq<int>, id: int, lo: real, hi: real)
    requires |f| == |bins|
    requires forall k :: 0 <= k < |f| && bins[k] == id ==> lo <= f[k] <= hi
    ensures Times(LabelCount(bins, id), lo) <= LabelSum(f, bins, id) <= Times(LabelCount(bins, id), hi)
  {
    if |f| > 0 {
      var f', bins' := f[1..], bins[1..];
      forall k | 0 <= k < |f'| && bins'[k] == id
        ensures lo <= f'[k] <= hi
      {
        assert f'[k] == f[k + 1] && bins'[k] == bins[k + 1];
      }
      LabelSumBetweenCopies(f', bins', id, lo, hi);
    }
  }

  /** The sum over an id lies between count * lo and count * hi when the
      field lies in [lo, hi] on that id. */
  lemma LabelSumBounds(f: seq<real>, bins: seq<int>, id: int, lo: real, hi: real)
    requires |f| == |bins|
    requires forall k :: 0 <= k < |f| && bins[k] == id ==> lo <= f[k] <= hi
    ensures (LabelCount(bins, id) as real) * lo <= LabelSum(f, bins, id) <= (LabelCount(bins, id) as real) * hi
  {
    LabelSumBetweenCopies(f, bins, id, lo, hi);
    TimesIsProduct(LabelCount(bins, id), lo);
    TimesIsProduct(LabelCount(bins, id), hi);
  }

  lemma MeanBetween(s: real, c: real, lo: real, hi: real)
    requires c > 0.0 && c * lo <= s <= c * hi
    ensures lo <= s / c <= hi
  {
    DivKeepsOrder(c * lo, s, c);
    DivKeepsOrder(s, c * hi, c);
    MulDivCancel(lo, c);
    MulDivCancel(hi, c);
    assert c * lo == lo * c && c * hi == hi * c;
  }

  /** A bin id's mean is NaN exactly when no pixel carries it, and otherwise
      lies within any bounds that hold for the field on that id. */
  lemma LabelMeanBounds(f: seq<real>, bins: seq<int>, id: int, lo: real, hi: real)
    requires |f| == |bins|
    requires forall k :: 0 <= k < |f| && bins[k] == id ==> lo <= f[k] <= hi
    ensures LabelMean(f, bins, id).Finite? <==> Labelled(bins, id)
    ensures LabelMean(f, bins, id).Finite? ==> lo <= LabelMean(f, bins, id).value <= hi
  {
    LabelCountPositive(bins, id);
    var n := LabelCount(bins, id);
    if n > 0 {
      LabelSumBounds(f, bins, id, lo, hi);
      MeanBetween(LabelSum(f, bins, id), n as real, lo, hi);
    }
  }

  /** The largest entry of a non-empty sequence. */
  function MaxOf(s: seq<int>): (m: int)
    requires |s| > 0
    ensures exists k :: 0 <= k < |s| && s[k] == m
    ensures forall k :: 0 <= k < |s| ==> s[k] <= m
  {
    if |s| == 1 then s[0]
    else
      var m := MaxOf(s[1..]);
      assert forall k :: 1 <= k < |s| ==> s[k] == s[1..][k - 1];
      if s[0] >= m then s[0] else m
  }

  /** The means for ids 0 .. max(bins), as ndimage.mean returns them. */
  function BinMeans(f: seq<real>, bins: seq<int>): (means: seq<Float>)
    requires |f| == |bins| && |bins| > 0
    ensures |means| == (if MaxOf(bins) >= 0 then MaxOf(bins) + 1 else 0)
  {
    var size := if MaxOf(bins) >= 0 then MaxOf(bins) + 1 else 0;
    seq(size, l requires 0 <= l < size => LabelMean(f, bins, l))
  }

  // ---------------------------------------------------------------------
  // Reshape

  /** numpy's reshape of `size` entries to (rows, cols), where one of the two
      may be -1 and is then inferred; None where numpy raises. */
  function ReshapeDims(size: nat, rows: int, cols: int): (r: Option<(nat, nat)>)
  {
    if rows >= 0 && cols >= 0 then
      if rows * cols == size then Some((rows, cols)) else None
    else if rows == -1 && cols > 0 then
      if size % cols == 0 then Some((size / cols, cols)) else None
    else if cols == -1 && rows > 0 then
      if size % rows == 0 then Some((rows, size / rows)) else None
    else
      None
  }

  /** A reshape keeps the number of entries; with both dimensions given it
      succeeds exactly when their product is the size, and gives them back. */
  lemma ReshapeKeepsSize(size: nat, rows: int, cols: int)
    ensures ReshapeDims(size, rows, cols).Some? ==>
      ReshapeDims(size, rows, cols).value.0 * ReshapeDims(size, rows, cols).value.1 == size
    ensures rows >= 0 && cols >= 0 ==>
      (ReshapeDims(size, rows, cols).Some? <==> rows * cols == size) &&
      (ReshapeDims(size, rows, cols).Some? ==> ReshapeDims(size, rows, cols).value == (rows, cols))
  {
    if rows == -1 && cols > 0 && size % cols == 0 {
      assert size == (size / cols) * cols + size % cols;
    } else if cols == -1 && rows > 0 && size % rows == 0 {
      assert size == (size / rows) * rows + size % rows;
    }
  }

  /** The row-major (rows, cols) table of a flat sequence. */
  function Grid<T>(flat: seq<T>, rows: nat, cols: nat): (g: seq<seq<T>>)
    requires rows * cols == |flat|
    ensures |g| == rows && forall a :: 0 <= a < rows ==> |g[a]| == cols
  {
    seq(rows, a requires 0 <= a < rows =>
      seq(cols, b requires 0 <= b < cols => RowMajorBelow(a, b, rows, cols); flat[a * cols + b]))
  }

  /** Entry (a, b) of the table is entry a * cols + b of the flat sequence. */
  lemma GridEntry<T>(flat: seq<T>, rows: nat, cols: nat, a: int, b: int)
    requires rows * cols == |flat| && 0 <= a < rows && 0 <= b < cols
    ensures 0 <= a * cols + b < |flat| && Grid(flat, rows, cols)[a][b] == flat[a * cols + b]
  {
    RowMajorBelow(a, b, rows, cols);
  }

  /** Every row of the table has `cols` entries. */
  predicate Rectangular<T>(g: seq<seq<T>>, cols: nat)
  {
    forall a :: 0 <= a < |g| ==> |g[a]| == cols
  }

  /** Column b of a table. */
  function Column<T>(g: seq<seq<T>>, b: nat): (c: seq<T>)
    requires forall a :: 0 <= a < |g| ==> b < |g[a]|
    ensures |c| == |g| && forall a :: 0 <= a < |g| ==> c[a] == g[a][b]
  {
    seq(|g|, a requires 0 <= a < |g| => g[a][b])
  }

  // ---------------------------------------------------------------------
  // Periodic interpolation of the empty entries of one column (np.interp
  // with period equal to the column length)

  /** The column has at least one known (non-NaN) entry. */
  predicate HasSample(col: seq<Float>)
  {
    exists k :: 0 <= k < |col| && col[k].Finite?
  }

  /** The entry i steps before x, going round the column. */
  function Behind(col: seq<Float>, x: int, i: int): Float
    requires |col| > 0
  {
    col[(x - i) % |col|]
  }

  /** The entry i steps after x, going round the column. */
  function Ahead(col: seq<Float>, x: int, i: int): Float
    requires |col| > 0
  {
    col[(x + i) % |col|]
  }

  /** Steps back from x to the nearest known entry, searching from s;
      |col| when there is none short of a full turn. */
  function Back(col: seq<Float>, x: int, s: nat): (t: nat)
    requires 0 <= x < |col| && 1 <= s <= |col|
    ensures s <= t <= |col|
    ensures forall i :: s <= i < t ==> Behind(col, x, i) == NonFinite
    ensures t < |col| ==> Behind(col, x, t).Finite?
    decreases |col| - s
  {
    if s == |col| || Behind(col, x, s).Finite? then s else Back(col, x, s + 1)
  }

  /** Steps forward from x to the nearest known entry, searching from s. */
  function Forward(col: seq<Float>, x: int, s: nat): (t: nat)
    requires 0 <= x < |col| && 1 <= s <= |col|
    ensures s <= t <= |col|
    ensures forall i :: s <= i < t ==> Ahead(col, x, i) == NonFinite
    ensures t < |col| ==> Ahead(col, x, t).Finite?
    decreases |col| - s
  {
    if s == |col| || Ahead(col, x, s).Finite? then s else Forward(col, x, s + 1)
  }

  /** In a column with a known entry, an unknown entry has a known entry less
      than a full turn away in each direction. */
  lemma SamplesAround(col: seq<Float>, x: int)
    requires 0 <= x < |col| && col[x] == NonFinite && HasSample(col)
    ensures Back(col, x, 1) < |col| && Forward(col, x, 1) < |col|
  {
    var n := |col|;
    var k :| 0 <= k < n && col[k].Finite?;
    var tb := if x > k then x - k else x - k + n;
    var ta := if k > x then k - x else k - x + n;
    if x > k {
      DivModUnique(x - tb, n, 0, k);
      DivModUnique(x + ta, n, 1, k);
    } else {
      DivModUnique(x - tb, n, -1, k);
      DivModUnique(x + ta, n, 0, k);
    }
    assert Behind(col, x, tb).Finite? && Ahead(col, x, ta).Finite?;
  }

  /** The linear interpolation, going round the column, between the nearest
      known entries before and after the unknown entry x. */
  function Interpolated(col: seq<Float>, x: int): real
    requires 0 <= x < |col| && col[x] == NonFinite && HasSample(col)
  {
    var back, ahead := Back(col, x, 1), Forward(col, x, 1);
    SamplesAround(col, x);
    Lerp(Behind(col, x, back).value, Ahead(col, x, ahead).value, back as real, ahead as real)
  }

  /** The value s of the way from a to b when b lies s + t further on, in
      np.interp's order of operations. */
  function Lerp(a: real, b: real, s: real, t: real): real
    requires s + t != 0.0
  {
    (b - a) / (s + t) * s + a
  }

  /** The column with its NaN entries filled; fails without a known entry. */
  function FillColumn(col: seq<Float>): (r: Result<seq<real>>)
    ensures r.Ok? <==> HasSample(col)
    ensures r.Err? ==> r.error == NoSamplePoints
    ensures r.Ok? ==> |r.value| == |col|
    ensures r.Ok? ==> forall x :: 0 <= x < |col| && col[x].Finite? ==> r.value[x] == col[x].value
  {
    if !HasSample(col) then Err(NoSamplePoints)
    else
      Ok(seq(|col|, x requires 0 <= x < |col| =>
        match col[x]
        case Finite(v) => v
        case NonFinite => Interpolated(col, x)))
  }

  lemma BetweenEnds(a: real, b: real, s: real, t: real)
    requires s > 0.0 && t > 0.0
    ensures a <= b ==> a <= Lerp(a, b, s, t) <= b
    ensures b <= a ==> b <= Lerp(a, b, s, t) <= a
  {
    var w := s / (s + t);
    DivKeepsOrder(s, s + t, s + t);
    DivKeepsOrder(0.0, s, s + t);
    assert 0.0 <= w <= 1.0;
    assert (b - a) / (s + t) * s == (b - a) * w;
    if a <= b {
      MulKeepsOrder(w, 1.0, b - a + 1.0);
      assert (b - a) * w <= b - a by {
        if b > a { MulKeepsOrder(w, 1.0, b - a); }
      }
      assert (b - a) * w >= 0.0 by {
        if b > a { MulKeepsOrder(0.0, w, b - a); }
      }
    } else {
      assert (a - b) * w <= a - b by { MulKeepsOrder(w, 1.0, a - b); }
      assert (a - b) * w >= 0.0 by { MulKeepsOrder(0.0, w, a - b); }
      assert (b - a) * w == -((a - b) * w);
    }
  }

  /** An unknown entry is filled with a value between the nearest known
      entries before and after it (Back and Forward find those: every entry
      strictly between is unknown). */
  lemma FilledBetweenNeighbours(col: seq<Float>, x: int)
    requires 0 <= x < |col| && HasSample(col) && col[x] == NonFinite
    ensures Back(col, x, 1) < |col| && Forward(col, x, 1) < |col|
    ensures var a, b := Behind(col, x, Back(col, x, 1)), Ahead(col, x, Forward(col, x, 1));
      && a.Finite? && b.Finite?
      && (a.value <= b.value ==> a.value <= FillColumn(col).value[x] <= b.value)
      && (b.value <= a.value ==> b.value <= FillColumn(col).value[x] <= a.value)
  {
    SamplesAround(col, x);
    var back, ahead := Back(col, x, 1), Forward(col, x, 1);
    assert FillColumn(col).value[x] == Interpolated(col, x);
    BetweenEnds(Behind(col, x, back).value, Ahead(col, x, ahead).value, back as real, ahead as real);
  }

  /** Bounds that hold for the known entries of a column hold for every
      entry of the filled column. */
  lemma FillColumnBounded(col: seq<Float>, lo: real, hi: real)
    requires HasSample(col)
    requires forall k :: 0 <= k < |col| && col[k].Finite? ==> lo <= col[k].value <= hi
    ensures forall x :: 0 <= x < |col| ==> lo <= FillColumn(col).value[x] <= hi
  {
    forall x | 0 <= x < |col|
      ensures lo <= FillColumn(col).value[x] <= hi
    {
      if col[x] == NonFinite {
        FilledBetweenNeighbours(col, x);
        var back, ahead := Back(col, x, 1), Forward(col, x, 1);
        assert Behind(col, x, back) == col[(x - back) % |col|];
        assert Ahead(col, x, ahead) == col[(x + ahead) % |col|];
      }
    }
  }

  /** Every column filled, or the error of the first column without a known
      entry. */
  function FillColumns(g: seq<seq<Float>>, cols: nat): (r: Result<seq<seq<real>>>)
    requires Rectangular(g, cols)
    ensures r.Ok? <==> forall b :: 0 <= b < cols ==> HasSample(Column(g, b))
    ensures r.Err? ==> r.error == NoSamplePoints
    ensures r.Ok? ==> |r.value| == |g| && Rectangular(r.value, cols)
  {
    if exists b :: 0 <= b < cols && !HasSample(Column(g, b)) then Err(NoSamplePoints)
    else
      Ok(seq(|g|, a requires 0 <= a < |g| =>
        seq(cols, b requires 0 <= b < cols => FillColumn(Column(g, b)).value[a])))
  }

  // ---------------------------------------------------------------------
  // unroll_powerspec

  /** The smaller side of an image. */
  function MinSide(sx: nat, sy: nat): nat
  {
    if sx < sy then sx else sy
  }

  /** The outer radius: as given, or half the smaller side. */
  function OuterRadius(sx: nat, sy: nat, outer: Option<int>): int
  {
    match outer
    case None => MinSide(sx, sy) / 2
    case Some(o) => o
  }

  /** The bin ids with unroll_powerspec's defaults filled in. */
  function UnrollBins(pixels: seq<Polar>, sx: nat, sy: nat, inner: int, outer: Option<int>, nA: int, nbinsRadial: Option<int>): (bins: seq<int>)
    ensures |bins| == |pixels|
  {
    var out := OuterRadius(sx, sy, outer);
    PolarBins(pixels, inner, out, nA, Some(RadialCount(inner, out, nbinsRadial)))
  }

  /** The unrolled table of the field f (sx by sy, row-major) whose pixels
      have the polar coordinates `pixels`. */
  function Unroll(f: seq<real>, sx: nat, sy: nat, pixels: seq<Polar>, inner: int, outer: Option<int>,
                  nA: int, nbinsRadial: Option<int>): (r: Result<seq<seq<real>>>)
    requires |f| == sx * sy && |pixels| == |f|
    ensures sx != sy ==> r == Err(NotSquare)
    ensures r.Ok? ==> 0 < sx == sy
  {
    if sx != sy then Err(NotSquare)
    else if sx == 0 then Err(EmptyField)
    else
      var bins := UnrollBins(pixels, sx, sy, inner, outer, nA, nbinsRadial);
      var means := BinMeans(f, bins);
      var nR := RadialCount(inner, OuterRadius(sx, sy, outer), nbinsRadial);
      match ReshapeDims(|means|, nA, nR)
      case None => Err(ReshapeMismatch)
      case Some((rows, cols)) =>
        ReshapeKeepsSize(|means|, nA, nR);
        FillColumns(Grid(means, rows, cols), cols)
  }

  /** With non-negative bin counts, a successful unroll has nA rows of nR
      entries, and the largest bin id present is exactly nA * nR - 1. */
  lemma UnrollShape(f: seq<real>, sx: nat, sy: nat, pixels: seq<Polar>, inner: int, outer: Option<int>,
                    nA: int, nbinsRadial: Option<int>)
    requires |f| == sx * sy && |pixels| == |f|
    requires Unroll(f, sx, sy, pixels, inner, outer, nA, nbinsRadial).Ok?
    requires nA >= 0 && RadialCount(inner, OuterRadius(sx, sy, outer), nbinsRadial) >= 0
    ensures var g := Unroll(f, sx, sy, pixels, inner, outer, nA, nbinsRadial).value;
      var nR := RadialCount(inner, OuterRadius(sx, sy, outer), nbinsRadial);
      && |g| == nA && Rectangular(g, nR)
      && (nA * nR > 0 ==> MaxOf(UnrollBins(pixels, sx, sy, inner, outer, nA, nbinsRadial)) == nA * nR - 1)
  {
    var bins := UnrollBins(pixels, sx, sy, inner, outer, nA, nbinsRadial);
    var nR := RadialCount(inner, OuterRadius(sx, sy, outer), nbinsRadial);
    ReshapeKeepsSize(|BinMeans(f, bins)|, nA, nR);
  }

  /** Bounds that hold everywhere on the field hold everywhere in its
      unrolled table, filled entries included. */
  lemma UnrollBounded(f: seq<real>, sx: nat, sy: nat, pixels: seq<Polar>, inner: int, outer: Option<int>,
                      nA: int, nbinsRadial: Option<int>, lo: real, hi: real)
    requires |f| == sx * sy && |pixels| == |f|
    requires forall k :: 0 <= k < |f| ==> lo <= f[k] <= hi
    requires Unroll(f, sx, sy, pixels, inner, outer, nA, nbinsRadial).Ok?
    ensures var g := Unroll(f, sx, sy, pixels, inner, outer, nA, nbinsRadial).value;
      forall a, b :: 0 <= a < |g| && 0 <= b < |g[a]| ==> lo <= g[a][b] <= hi
  {
    var bins := UnrollBins(pixels, sx, sy, inner, outer, nA, nbinsRadial);
    var means := BinMeans(f, bins);
    var nR := RadialCount(inner, OuterRadius(sx, sy, outer), nbinsRadial);
    ReshapeKeepsSize(|means|, nA, nR);
    var (rows, cols) := ReshapeDims(|means|, nA, nR).value;
    var grid := Grid(means, rows, cols);
    forall l | 0 <= l < |means| && means[l].Finite?
      ensures lo <= means[l].value <= hi
    {
      LabelMeanBounds(f, bins, l, lo, hi);
    }
    forall b | 0 <= b < cols
      ensures forall a :: 0 <= a < rows ==> lo <= FillColumn(Column(grid, b)).value[a] <= hi
    {
      var col := Column(grid, b);
      forall a | 0 <= a < rows && col[a].Finite?
        ensures lo <= col[a].value <= hi
      {
        GridEntry(means, rows, cols, a, b);
      }
      FillColumnBounded(col, lo, hi);
    }
  }

  /** A constant field unrolls to that constant in every entry. */
  lemma UnrollOfConstant(f: seq<real>, sx: nat, sy: nat, pixels: seq<Polar>, inner: int, outer: Option<int>,
                         nA: int, nbinsRadial: Option<int>, c: real)
    requires |f| == sx * sy && |pixels| == |f|
    requires forall k :: 0 <= k < |f| ==> f[k] == c
    requires Unroll(f, sx, sy, pixels, inner, outer, nA, nbinsRadial).Ok?
    ensures var g := Unroll(f, sx, sy, pixels, inner, outer, nA, nbinsRadial).value;
      forall a, b :: 0 <= a < |g| && 0 <= b < |g[a]| ==> g[a][b] == c
  {
    UnrollBounded(f, sx, sy, pixels, inner, outer, nA, nbinsRadial, c, c);
  }

  /** An entry whose bin holds pixels is the mean of the field over them. */
  lemma UnrollEntryIsMean(f: seq<real>, sx: nat, sy: nat, pixels: seq<Polar>, inner: int, outer: Option<int>,
                          nA: int, nbinsRadial: Option<int>, a: int, b: int)
    requires |f| == sx * sy && |pixels| == |f|
    requires Unroll(f, sx, sy, pixels, inner, outer, nA, nbinsRadial).Ok?
    requires var g := Unroll(f, sx, sy, pixels, inner, outer, nA, nbinsRadial).value;
      0 <= a < |g| && 0 <= b < |g[a]|
    requires var g := Unroll(f, sx, sy, pixels, inner, outer, nA, nbinsRadial).value;
      Labelled(UnrollBins(pixels, sx, sy, inner, outer, nA, nbinsRadial), a * |g[a]| + b)
    ensures var g := Unroll(f, sx, sy, pixels, inner, outer, nA, nbinsRadial).value;
      var bins := UnrollBins(pixels, sx, sy, inner, outer, nA, nbinsRadial);
      LabelMean(f, bins, a * |g[a]| + b) == Finite(g[a][b])
  {
    var bins := UnrollBins(pixels, sx, sy, inner, outer, nA, nbinsRadial);
    var means := BinMeans(f, bins);
    var nR := RadialCount(inner, OuterRadius(sx, sy, outer), nbinsRadial);
    ReshapeKeepsSize(|means|, nA, nR);
    var (rows, cols) := ReshapeDims(|means|, nA, nR).value;
    var grid := Grid(means, rows, cols);
    var g := Unroll(f, sx, sy, pixels, inner, outer, nA, nbinsRadial).value;
    assert g == FillColumns(grid, cols).value;
    var id := a * cols + b;
    LabelCountPositive(bins, id);
    GridEntry(means, rows, cols, a, b);
    var col := Column(grid, b);
    assert col[a] == LabelMean(f, bins, id);
    assert g[a][b] == FillColumn(col).value[a] == col[a].value;
    assert |g[a]| == cols;
    assert a * |g[a]| + b == id;
  }

  // ---------------------------------------------------------------------
  // The in-place fill loop and the whole of unroll_powerspec

  /** Column b of a two-dimensional array. */
  function ArrayColumn(u: array2<Float>, b: nat): (c: seq<Float>)
    requires b < u.Length1
    reads u
    ensures |c| == u.Length0 && forall a :: 0 <= a < u.Length0 ==> c[a] == u[a, b]
  {
    seq(u.Length0, a requires 0 <= a < u.Length0 reads u => u[a, b])
  }

  /** Fills the NaN entries of column i of u in place (one turn of the
      column loop); false, with nothing changed, when the column has no
      known entry. */
  method FillColumnInPlace(u: array2<Float>, i: nat) returns (ok: bool)
    requires i < u.Length1
    modifies u
    ensures ok <==> HasSample(old(ArrayColumn(u, i)))
    ensures ok ==> forall a :: 0 <= a < u.Length0 ==> u[a, i] == Finite(FillColumn(old(ArrayColumn(u, i))).value[a])
    ensures forall a, b :: 0 <= a < u.Length0 && 0 <= b < u.Length1 && (b != i || !ok) ==> u[a, b] == old(u[a, b])
  {
    var filled := FillColumn(ArrayColumn(u, i));
    if filled.Err? {
      return false;
    }
    forall a | 0 <= a < u.Length0 {
      u[a, i] := Finite(filled.value[a]);
    }
    return true;
  }

  /** Fills the NaN entries of each column of u in place, column by column;
      stops with false at the first column without a known entry. */
  method FillEmptyBins(u: array2<Float>) returns (ok: bool)
    modifies u
    ensures ok <==> forall b :: 0 <= b < u.Length1 ==> HasSample(old(ArrayColumn(u, b)))
    ensures ok ==> forall a, b :: 0 <= a < u.Length0 && 0 <= b < u.Length1 ==>
                     u[a, b] == Finite(FillColumn(old(ArrayColumn(u, b))).value[a])
  {
    ghost var original := seq(u.Length1, b requires 0 <= b < u.Length1 reads u => ArrayColumn(u, b));
    assert forall b :: 0 <= b < u.Length1 ==> original[b] == old(ArrayColumn(u, b));
    for i := 0 to u.Length1
      invariant forall b :: 0 <= b < i ==> HasSample(original[b])
      invariant forall a, b :: 0 <= a < u.Length0 && 0 <= b < i ==>
                  u[a, b] == Finite(FillColumn(original[b]).value[a])
      invariant forall a, b :: 0 <= a < u.Length0 && i <= b < u.Length1 ==> u[a, b] == original[b][a]
    {
      assert ArrayColumn(u, i) == original[i];
      var filled := FillColumnInPlace(u, i);
      if !filled {
        return false;
      }
    }
    return true;
  }

  /** unroll_powerspec: the unrolled table as an array, equal to Unroll. */
  method UnrollPowerspec(f: seq<real>, sx: nat, sy: nat, pixels: seq<Polar>, inner: int, outer: Option<int>,
                         nA: int, nbinsRadial: Option<int>)
    returns (r: Result<array2<Float>>)
    requires |f| == sx * sy && |pixels| == |f|
    ensures var spec := Unroll(f, sx, sy, pixels, inner, outer, nA, nbinsRadial);
      && (r.Ok? <==> spec.Ok?)
      && (r.Err? ==> r.error == spec.error)
      && (r.Ok? ==>
            && r.value.Length0 == |spec.value| && Rectangular(spec.value, r.value.Length1)
            && forall a, b :: 0 <= a < r.value.Length0 && 0 <= b < r.value.Length1 ==>
                 r.value[a, b] == Finite(spec.value[a][b]))
  {
    if sx != sy {
      return Err(NotSquare);
    }
    if sx == 0 {
      return Err(EmptyField);
    }
    var bins := UnrollBins(pixels, sx, sy, inner, outer, nA, nbinsRadial);
    var means := BinMeans(f, bins);
    var nR := RadialCount(inner, OuterRadius(sx, sy, outer), nbinsRadial);
    var dims := ReshapeDims(|means|, nA, nR);
    if dims.None? {
      return Err(ReshapeMismatch);
    }
    ReshapeKeepsSize(|means|, nA, nR);
    var (rows, cols) := dims.value;
    var grid := Grid(means, rows, cols);
    ghost var spec := FillColumns(grid, cols);
    assert spec == Unroll(f, sx, sy, pixels, inner, outer, nA, nbinsRadial);
    var u := new Float[rows, cols]((a, b) requires 0 <= a < rows && 0 <= b < cols => grid[a][b]);
    forall b | 0 <= b < cols
      ensures ArrayColumn(u, b) == Column(grid, b)
    {
    }
    var ok := FillEmptyBins(u);
    if !ok {
      assert spec.Err?;
      return Err(NoSamplePoints);
    }
    assert spec.Ok?;
    forall a, b | 0 <= a < rows && 0 <= b < cols
      ensures u[a, b] == Finite(spec.value[a][b])
    {
    }
    return Ok(u);
  }
}
