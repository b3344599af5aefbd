/** Greedy non-maximum suppression over a batch of density maps, with the
    class channels around every accepted peak aggregated into a probability
    vector.  Positions of a map are flattened row-major: j == x * width + y. */
module Nms {
  import opened Floats
  import opened Arith

  /** The spatial shape of one density map. */
  datatype Shape = Shape(height: nat, width: nat) {
    function Size(): nat { height * width }

    /** The bounds filter applied to neighbour coordinates. */
    predicate Contains(x: int, y: int) { -1 < x && -1 < y && x < height && y < width }
  }

  /** Row-major index conversion (the sub2ind of the source). */
  function Index(x: int, y: int, width: nat): int { x * width + y }

  /** Row of a flattened position (the first half of ind2sub); a map of
      width 0 has no positions, so the value chosen there is immaterial. */
  function Row(j: int, width: nat): int { if width == 0 then 0 else j / width }

  /** Column of a flattened position (the second half of ind2sub). */
  function Col(j: int, width: nat): int { if width == 0 then 0 else j % width }

  lemma IndexRoundTrip(x: int, y: int, width: nat)
    requires 0 <= y < width
    ensures Row(Index(x, y, width), width) == x
    ensures Col(Index(x, y, width), width) == y
  {
    DivModUnique(x * width + y, width, x, y);
  }

  lemma IndexInRange(x: int, y: int, shape: Shape)
    requires shape.Contains(x, y)
    ensures 0 <= Index(x, y, shape.width) < shape.Size()
  {
    MulMonotone(0, x, shape.width);
    MulMonotone(x, shape.height - 1, shape.width);
  }

  /** An integer offset from a peak. */
  datatype Offset = Offset(dx: int, dy: int)

  function SqNorm(o: Offset): int { o.dx * o.dx + o.dy * o.dy }

  /** The offsets the disc of radius d consists of: inside the square
      [-d, d] x [-d, d] and strictly inside the circle. */
  predicate InDisc(o: Offset, d: nat)
  {
    -(d as int) <= o.dx <= d && -(d as int) <= o.dy <= d && SqNorm(o) < d * d
  }

  /** The (2d+1) x (2d+1) square of offsets in row-major order: the row
      index gives dy, the column index gives dx. */
  function OffsetSquare(d: nat): (sq: seq<Offset>)
    ensures |sq| == (2 * d + 1) * (2 * d + 1)
  {
    var side := 2 * d + 1;
    seq(side * side, u => Offset(u % side - d, u / side - d))
  }

  /** The offsets of s strictly inside the circle of radius d, in order. */
  function KeepInside(s: seq<Offset>, d: nat): (r: seq<Offset>)
    ensures forall o :: o in r <==> o in s && SqNorm(o) < d * d
  {
    if |s| == 0 then []
    else if SqNorm(s[0]) < d * d then [s[0]] + KeepInside(s[1..], d)
    else KeepInside(s[1..], d)
  }

  /** The disc of offsets around a peak (the filtered x_disc, y_disc). */
  function Disc(d: nat): (disc: seq<Offset>)
    ensures forall o :: o in disc ==> SqNorm(o) < d * d
  {
    KeepInside(OffsetSquare(d), d)
  }

  lemma OffsetSquareEntry(d: nat, u: int)
    requires 0 <= u < (2 * d + 1) * (2 * d + 1)
    ensures -(d as int) <= OffsetSquare(d)[u].dx <= d
    ensures -(d as int) <= OffsetSquare(d)[u].dy <= d
  {
    var side := 2 * d + 1;
    assert OffsetSquare(d)[u] == Offset(u % side - d, u / side - d);
    DivBelow(u, side, side);
  }

  lemma OffsetSquareMembership(d: nat, o: Offset)
    ensures o in OffsetSquare(d) <==> -(d as int) <= o.dx <= d && -(d as int) <= o.dy <= d
  {
    var side := 2 * d + 1;
    var sq := OffsetSquare(d);
    if o in sq {
      var u :| 0 <= u < |sq| && sq[u] == o;
      OffsetSquareEntry(d, u);
    }
    if -(d as int) <= o.dx <= d && -(d as int) <= o.dy <= d {
      var u := Index(o.dy + d, o.dx + d, side);
      IndexRoundTrip(o.dy + d, o.dx + d, side);
      IndexInRange(o.dy + d, o.dx + d, Shape(side, side));
      assert sq[u] == o;
    }
  }

  /** The disc holds exactly the integer offsets with |dx|, |dy| <= d and
      dx*dx + dy*dy < d*d. */
  lemma DiscMembership(d: nat, o: Offset)
    ensures o in Disc(d) <==> InDisc(o, d)
  {
    OffsetSquareMembership(d, o);
  }

  lemma SquareNonNegative(a: int)
    ensures a * a >= 0
  {
    if a >= 0 {
      MulMonotone(0, a, a);
    } else {
      assert a * a == (-a) * (-a);
      MulMonotone(0, -a, -a);
    }
  }

  /** For d >= 1 the disc holds the peak itself. */
  lemma DiscHoldsCentre(d: nat)
    requires d >= 1
    ensures Offset(0, 0) in Disc(d)
  {
    DiscMembership(d, Offset(0, 0));
    MulMonotone(1, d, d);
    assert InDisc(Offset(0, 0), d);
  }

  /** For d == 0 the disc is empty, so an accepted peak suppresses nothing. */
  lemma DiscOfZeroIsEmpty()
    ensures Disc(0) == []
  {
    if Disc(0) != [] {
      var o := Disc(0)[0];
      assert o in Disc(0);
      SquareNonNegative(o.dx);
      SquareNonNegative(o.dy);
    }
  }

  lemma SquareBound(a: int, d: nat)
    requires a * a < d * d
    ensures -(d as int) < a < d
  {
    if a >= d {
      MulMonotone(d, a, d);
      MulMonotone(d, a, a);
    } else if a <= -(d as int) {
      assert a * a == (-a) * (-a);
      MulMonotone(d, -a, d);
      MulMonotone(d, -a, -a);
    }
  }

  lemma PositionInShape(p: int, shape: Shape)
    requires 0 <= p < shape.Size()
    ensures shape.width > 0
    ensures shape.Contains(Row(p, shape.width), Col(p, shape.width))
    ensures Index(Row(p, shape.width), Col(p, shape.width), shape.width) == p
  {
    var w := shape.width;
    assert w > 0;
    assert p == (p / w) * w + p % w;
    MulMonotone(0, p / w, w);
    if p / w >= shape.height {
      MulMonotone(shape.height, p / w, w);
    }
  }

  /** The flattened position reached from j by the offset o. */
  function Target(j: int, o: Offset, width: nat): int
  {
    Index(Row(j, width) + o.dx, Col(j, width) + o.dy, width)
  }

  /** Whether the offset o from j stays inside the map. */
  predicate Hits(j: int, o: Offset, shape: Shape)
  {
    shape.Contains(Row(j, shape.width) + o.dx, Col(j, shape.width) + o.dy)
  }

  /** The in-bounds positions that the disc around j covers. */
  function Neighbours(j: int, shape: Shape, disc: seq<Offset>): set<int>
  {
    set u | 0 <= u < |disc| && Hits(j, disc[u], shape) :: Target(j, disc[u], shape.width)
  }

  /** Squared Euclidean distance between two flattened positions. */
  function SqDist(j: int, p: int, width: nat): int
  {
    SqNorm(Offset(Row(p, width) - Row(j, width), Col(p, width) - Col(j, width)))
  }

  lemma SqDistSymmetric(j: int, p: int, width: nat)
    ensures SqDist(j, p, width) == SqDist(p, j, width)
  {
    var a, b := Row(p, width) - Row(j, width), Col(p, width) - Col(j, width);
    assert a * a == (-a) * (-a);
    assert b * b == (-b) * (-b);
  }

  lemma NeighbourIsNear(j: int, shape: Shape, d: nat, p: int)
    requires 0 <= j < shape.Size()
    requires p in Neighbours(j, shape, Disc(d))
    ensures 0 <= p < shape.Size() && SqDist(j, p, shape.width) < d * d
  {
    var w := shape.width;
    var disc := Disc(d);
    var u :| 0 <= u < |disc| && Hits(j, disc[u], shape) && Target(j, disc[u], w) == p;
    var o := disc[u];
    DiscMembership(d, o);
    IndexInRange(Row(j, w) + o.dx, Col(j, w) + o.dy, shape);
    IndexRoundTrip(Row(j, w) + o.dx, Col(j, w) + o.dy, w);
    assert Offset(Row(p, w) - Row(j, w), Col(p, w) - Col(j, w)) == o;
  }

  lemma NearIsNeighbour(j: int, shape: Shape, d: nat, p: int)
    requires 0 <= j < shape.Size() && 0 <= p < shape.Size()
    requires SqDist(j, p, shape.width) < d * d
    ensures p in Neighbours(j, shape, Disc(d))
  {
    var w := shape.width;
    var disc := Disc(d);
    PositionInShape(p, shape);
    var o := Offset(Row(p, w) - Row(j, w), Col(p, w) - Col(j, w));
    SquareNonNegative(o.dx);
    SquareNonNegative(o.dy);
    SquareBound(o.dx, d);
    SquareBound(o.dy, d);
    DiscMembership(d, o);
    var u :| 0 <= u < |disc| && disc[u] == o;
    assert Hits(j, disc[u], shape) && Target(j, disc[u], w) == p;
  }

  /** The neighbours of j are exactly the positions of the map at squared
      distance below d * d: the bounds filter drops nothing inside the map. */
  lemma NeighboursAreDisc(j: int, shape: Shape, d: nat, p: int)
    requires 0 <= j < shape.Size()
    ensures p in Neighbours(j, shape, Disc(d)) <==>
              0 <= p < shape.Size() && SqDist(j, p, shape.width) < d * d
  {
    PositionInShape(j, shape);
    if p in Neighbours(j, shape, Disc(d)) {
      NeighbourIsNear(j, shape, d, p);
    }
    if 0 <= p < shape.Size() && SqDist(j, p, shape.width) < d * d {
      NearIsNeighbour(j, shape, d, p);
    }
  }

  /** The parameters of one suppression run. */
  datatype Config = Config(shape: Shape, distance: nat, threshold: real)

  /** Whether p lies strictly inside the disc around a. */
  predicate Near(a: int, p: int, cfg: Config)
  {
    SqDist(a, p, cfg.shape.width) < cfg.distance * cfg.distance
  }

  /** The visiting order np.argsort(-density) may produce: a permutation of
      the positions with non-increasing density.  The sort is not stable, so
      ties may come in any order. */
  predicate IsDescendingOrder(order: seq<int>, dens: seq<real>)
  {
    && |order| == |dens|
    && (forall k :: 0 <= k < |order| ==> 0 <= order[k] < |dens|)
    && (forall k, l :: 0 <= k < l < |order| ==> order[k] != order[l])
    && (forall p :: 0 <= p < |dens| ==> p in order)
    && (forall k, l :: 0 <= k < l < |order| ==> dens[order[k]] >= dens[order[l]])
  }

  /** The positions suppressed before the scan: density below the threshold. */
  function BelowThreshold(dens: seq<real>, threshold: real): set<int>
  {
    set p | 0 <= p < |dens| && dens[p] < threshold
  }

  /** Accepted and suppressed positions of one map. */
  datatype ScanState = ScanState(accepted: set<int>, suppressed: set<int>)

  /** The state after visiting the first n positions of the order: a visited
      position that is not suppressed is accepted and suppresses its disc. */
  function Scan(dens: seq<real>, order: seq<int>, cfg: Config, n: nat): (s: ScanState)
    requires n <= |order|
    ensures BelowThreshold(dens, cfg.threshold) <= s.suppressed
    ensures forall a :: a in s.accepted ==> a in order[..n]
  {
    if n == 0 then ScanState({}, BelowThreshold(dens, cfg.threshold))
    else
      var s := Scan(dens, order, cfg, n - 1);
      var j := order[n - 1];
      if j in s.suppressed then s
      else ScanState(s.accepted + {j}, s.suppressed + Neighbours(j, cfg.shape, Disc(cfg.distance)))
  }

  /** The outcome of the whole scan of one map. */
  function Greedy(dens: seq<real>, order: seq<int>, cfg: Config): (s: ScanState)
    ensures BelowThreshold(dens, cfg.threshold) <= s.suppressed
    ensures forall a :: a in s.accepted ==> a in order
  {
    Scan(dens, order, cfg, |order|)
  }

  /** Suppression is monotone: neither set ever loses a position. */
  lemma {:induction false} ScanMonotone(dens: seq<real>, order: seq<int>, cfg: Config, n: nat, m: nat)
    requires n <= m <= |order|
    ensures Scan(dens, order, cfg, n).accepted <= Scan(dens, order, cfg, m).accepted
    ensures Scan(dens, order, cfg, n).suppressed <= Scan(dens, order, cfg, m).suppressed
    decreases m
  {
    if n < m {
      ScanMonotone(dens, order, cfg, n, m - 1);
    }
  }

  /** What holds of the scan state after n steps. */
  ghost predicate ScanInvariant(dens: seq<real>, order: seq<int>, cfg: Config, n: nat, s: ScanState)
    requires |dens| == cfg.shape.Size() && n <= |order|
  {
    && (forall p :: p in s.suppressed ==> 0 <= p < |dens|)
    && (forall p :: 0 <= p < |dens| && dens[p] < cfg.threshold ==> p in s.suppressed)
    && (forall a :: a in s.accepted ==> 0 <= a < |dens| && cfg.threshold <= dens[a])
    && (forall a, k :: a in s.accepted && n <= k < |order| && 0 <= order[k] < |dens| ==>
          dens[order[k]] <= dens[a])
    && (forall a, p :: a in s.accepted && 0 <= p < |dens| && Near(a, p, cfg) ==> p in s.suppressed)
    && (forall a, b :: a in s.accepted && b in s.accepted && a != b ==> !Near(a, b, cfg))
    && (forall p :: p in s.suppressed && cfg.threshold <= dens[p] ==>
          exists a :: a in s.accepted && Near(a, p, cfg))
  }

  lemma {:induction false} ScanKeepsInvariant(dens: seq<real>, order: seq<int>, cfg: Config, n: nat)
    requires IsDescendingOrder(order, dens) && |dens| == cfg.shape.Size()
    requires n <= |order|
    ensures ScanInvariant(dens, order, cfg, n, Scan(dens, order, cfg, n))
  {
    if n > 0 {
      ScanKeepsInvariant(dens, order, cfg, n - 1);
      var s := Scan(dens, order, cfg, n - 1);
      var j := order[n - 1];
      if j !in s.suppressed {
        var nb := Neighbours(j, cfg.shape, Disc(cfg.distance));
        forall p
          ensures p in nb <==> 0 <= p < |dens| && Near(j, p, cfg)
        {
          NeighboursAreDisc(j, cfg.shape, cfg.distance, p);
        }
        ScanStepKeepsInvariant(dens, order, cfg, n, s, nb);
      }
    }
  }

  /** One acceptance step keeps the invariant; nb stands for the disc of
      the accepted position, given by its characterisation only. */
  lemma ScanStepKeepsInvariant(dens: seq<real>, order: seq<int>, cfg: Config, n: nat, s: ScanState, nb: set<int>)
    requires IsDescendingOrder(order, dens) && |dens| == cfg.shape.Size()
    requires 0 < n <= |order|
    requires ScanInvariant(dens, order, cfg, n - 1, s)
    requires order[n - 1] !in s.suppressed
    requires forall p :: p in nb <==> 0 <= p < |dens| && Near(order[n - 1], p, cfg)
    ensures ScanInvariant(dens, order, cfg, n, ScanState(s.accepted + {order[n - 1]}, s.suppressed + nb))
  {
    var j := order[n - 1];
    var s' := ScanState(s.accepted + {j}, s.suppressed + nb);
    forall a, b | a in s'.accepted && b in s'.accepted && a != b
      ensures !Near(a, b, cfg)
    {
      if a == j {
        SqDistSymmetric(j, b, cfg.shape.width);
      }
    }
  }

  /** No accepted position has density below the threshold: those positions
      are suppressed before the scan starts. */
  lemma AcceptedAboveThreshold(dens: seq<real>, order: seq<int>, cfg: Config)
    requires IsDescendingOrder(order, dens) && |dens| == cfg.shape.Size()
    ensures forall a :: a in Greedy(dens, order, cfg).accepted ==> 0 <= a < |dens| && cfg.threshold <= dens[a]
  {
    ScanKeepsInvariant(dens, order, cfg, |order|);
  }

  /** No two accepted positions of one map lie strictly inside each other's disc. */
  lemma AcceptedAreSeparated(dens: seq<real>, order: seq<int>, cfg: Config)
    requires IsDescendingOrder(order, dens) && |dens| == cfg.shape.Size()
    ensures forall a, b :: a in Greedy(dens, order, cfg).accepted && b in Greedy(dens, order, cfg).accepted && a != b ==>
              !Near(a, b, cfg)
  {
    ScanKeepsInvariant(dens, order, cfg, |order|);
  }

  /** Every position at or above the threshold that is not accepted lies
      strictly inside the disc of an accepted position at least as dense. */
  lemma RejectedAreCovered(dens: seq<real>, order: seq<int>, cfg: Config, p: int)
    requires IsDescendingOrder(order, dens) && |dens| == cfg.shape.Size()
    requires 0 <= p < |dens| && cfg.threshold <= dens[p]
    requires p !in Greedy(dens, order, cfg).accepted
    ensures exists a :: a in Greedy(dens, order, cfg).accepted && 0 <= a < |dens| && Near(a, p, cfg) && dens[p] <= dens[a]
  {
    assert p in order;
    var k :| 0 <= k < |order| && order[k] == p;
    ScanMonotone(dens, order, cfg, k + 1, |order|);
    var s := Scan(dens, order, cfg, k);
    assert p in s.suppressed;
    ScanKeepsInvariant(dens, order, cfg, k);
    var a :| a in s.accepted && 0 <= a < |dens| && Near(a, p, cfg);
    ScanMonotone(dens, order, cfg, k, |order|);
    assert dens[order[k]] <= dens[a];
    assert a in Greedy(dens, order, cfg).accepted;
  }

  lemma TargetsInRange(j: int, shape: Shape, disc: seq<Offset>)
    ensures forall u :: 0 <= u < |disc| && Hits(j, disc[u], shape) ==>
              0 <= Target(j, disc[u], shape.width) < shape.Size()
  {
    forall u | 0 <= u < |disc| && Hits(j, disc[u], shape)
      ensures 0 <= Target(j, disc[u], shape.width) < shape.Size()
    {
      IndexInRange(Row(j, shape.width) + disc[u].dx, Col(j, shape.width) + disc[u].dy, shape);
    }
  }

  /** One class channel summed over the in-bounds neighbours that the first
      n disc offsets reach from j, each weighted by the offset's weight. */
  function ClassTotal(channel: seq<real>, j: int, shape: Shape, disc: seq<Offset>, weights: seq<real>, n: nat): real
    requires |channel| == shape.Size() && n <= |disc| == |weights|
  {
    if n == 0 then 0.0
    else
      var o := disc[n - 1];
      var rest := ClassTotal(channel, j, shape, disc, weights, n - 1);
      if Hits(j, o, shape) then
        IndexInRange(Row(j, shape.width) + o.dx, Col(j, shape.width) + o.dy, shape);
        rest + channel[Target(j, o, shape.width)] * weights[n - 1]
      else rest
  }

  /** The weighted class sums around j, one per channel (the tmp of the source). */
  function ClassTotals(cls: seq<seq<real>>, j: int, shape: Shape, disc: seq<Offset>, weights: seq<real>): (t: seq<real>)
    requires forall c :: 0 <= c < |cls| ==> |cls[c]| == shape.Size()
    requires |disc| == |weights|
    ensures |t| == |cls|
  {
    seq(|cls|, c requires 0 <= c < |cls| => ClassTotal(cls[c], j, shape, disc, weights, |disc|))
  }

  /** tmp / np.sum(tmp): every entry divided by the total; a zero total
      gives NaN or an infinity in every entry. */
  function Normalise(v: seq<real>): (r: seq<Float>)
    ensures |r| == |v|
  {
    var total := Sum(v);
    if total == 0.0 then seq(|v|, c => NonFinite) else AsFinite(Divided(v, total))
  }

  /** At a non-zero total the normalised vector is finite and sums to 1. */
  lemma NormaliseSumsToOne(v: seq<real>)
    requires Sum(v) != 0.0
    ensures forall c :: 0 <= c < |v| ==> Normalise(v)[c].Finite?
    ensures Sum(Values(Normalise(v))) == 1.0
  {
    var q := Divided(v, Sum(v));
    assert Values(Normalise(v)) == q;
    SumDivided(v, Sum(v));
    DivSelf(Sum(v));
  }

  lemma {:induction false} ClassTotalNonNegative(channel: seq<real>, j: int, shape: Shape, disc: seq<Offset>, weights: seq<real>, n: nat)
    requires |channel| == shape.Size() && n <= |disc| == |weights|
    requires forall p :: 0 <= p < |channel| ==> channel[p] >= 0.0
    requires forall u :: 0 <= u < |weights| ==> weights[u] >= 0.0
    ensures ClassTotal(channel, j, shape, disc, weights, n) >= 0.0
  {
    if n > 0 {
      ClassTotalNonNegative(channel, j, shape, disc, weights, n - 1);
      var o := disc[n - 1];
      if Hits(j, o, shape) {
        IndexInRange(Row(j, shape.width) + o.dx, Col(j, shape.width) + o.dy, shape);
        var x := channel[Target(j, o, shape.width)];
        assert x * weights[n - 1] >= 0.0;
      }
    }
  }

  /** With non-negative class values and weights, a peak whose weighted sum
      is non-zero gets a probability vector of non-negative entries summing to 1. */
  lemma ProbabilitiesAreDistribution(cls: seq<seq<real>>, j: int, shape: Shape, disc: seq<Offset>, weights: seq<real>)
    requires forall c :: 0 <= c < |cls| ==> |cls[c]| == shape.Size()
    requires |disc| == |weights|
    requires forall c, p :: 0 <= c < |cls| && 0 <= p < |cls[c]| ==> cls[c][p] >= 0.0
    requires forall u :: 0 <= u < |weights| ==> weights[u] >= 0.0
    requires Sum(ClassTotals(cls, j, shape, disc, weights)) != 0.0
    ensures forall c :: 0 <= c < |cls| ==> Normalise(ClassTotals(cls, j, shape, disc, weights))[c].Finite?
    ensures forall c :: 0 <= c < |cls| ==> Normalise(ClassTotals(cls, j, shape, disc, weights))[c].value >= 0.0
    ensures Sum(Values(Normalise(ClassTotals(cls, j, shape, disc, weights)))) == 1.0
  {
    var t := ClassTotals(cls, j, shape, disc, weights);
    forall c | 0 <= c < |cls|
      ensures t[c] >= 0.0
    {
      ClassTotalNonNegative(cls[c], j, shape, disc, weights, |disc|);
    }
    SumNonNegative(t);
    NormaliseSumsToOne(t);
    forall c | 0 <= c < |cls|
      ensures Normalise(t)[c].value >= 0.0
    {
      var q := Divided(t, Sum(t));
      assert q[c] * Sum(t) == t[c];
      assert Normalise(t)[c].value == q[c];
    }
  }

  /** The probability entry of channel c at position p once the accepted set
      is known: the normalised class sums at an accepted position, 0 elsewhere. */
  function ProbabilityAt(cls: seq<seq<real>>, c: nat, p: int, cfg: Config, weights: seq<real>, accepted: set<int>): Float
    requires forall c' :: 0 <= c' < |cls| ==> |cls[c']| == cfg.shape.Size()
    requires |weights| == |Disc(cfg.distance)| && c < |cls|
  {
    if p in accepted then Normalise(ClassTotals(cls, p, cfg.shape, Disc(cfg.distance), weights))[c]
    else Finite(0.0)
  }

  /** Row i of the three arrays holds the scan state after the first n
      positions of the order. */
  predicate RowHolds(i: nat, dens: seq<real>, cls: seq<seq<real>>, order: seq<int>, cfg: Config, weights: seq<real>,
                     n: nat, accepted: array2<bool>, suppressed: array2<bool>, probabilities: array3<Float>)
    requires n <= |order| && |dens| == cfg.shape.Size()
    requires forall c :: 0 <= c < |cls| ==> |cls[c]| == |dens|
    requires |weights| == |Disc(cfg.distance)|
    requires i < accepted.Length0 == suppressed.Length0 == probabilities.Length0
    requires accepted.Length1 == suppressed.Length1 == probabilities.Length2 == |dens|
    requires probabilities.Length1 == |cls|
    reads accepted, suppressed, probabilities
  {
    && (forall p :: 0 <= p < |dens| ==> (accepted[i, p] <==> p in Scan(dens, order, cfg, n).accepted))
    && (forall p :: 0 <= p < |dens| ==> (suppressed[i, p] <==> p in Scan(dens, order, cfg, n).suppressed))
    && (forall c, p :: 0 <= c < |cls| && 0 <= p < |dens| ==>
          probabilities[i, c, p] == ProbabilityAt(cls, c, p, cfg, weights, Scan(dens, order, cfg, n).accepted))
  }

  /** One turn of the loop over the sorted positions: the n-th position is
      accepted unless already suppressed, and then its disc is suppressed
      and its class probabilities are written. */
  method ScanStep(i: nat, dens: seq<real>, cls: seq<seq<real>>, order: seq<int>, cfg: Config, weights: seq<real>,
                  n: nat, accepted: array2<bool>, suppressed: array2<bool>, probabilities: array3<Float>)
    requires IsDescendingOrder(order, dens) && |dens| == cfg.shape.Size() && n < |order|
    requires forall c :: 0 <= c < |cls| ==> |cls[c]| == |dens|
    requires |weights| == |Disc(cfg.distance)|
    requires accepted != suppressed
    requires i < accepted.Length0 == suppressed.Length0 == probabilities.Length0
    requires accepted.Length1 == suppressed.Length1 == probabilities.Length2 == |dens|
    requires probabilities.Length1 == |cls|
    requires RowHolds(i, dens, cls, order, cfg, weights, n, accepted, suppressed, probabilities)
    modifies accepted, suppressed, probabilities
    ensures RowHolds(i, dens, cls, order, cfg, weights, n + 1, accepted, suppressed, probabilities)
    ensures forall k, p :: 0 <= k < accepted.Length0 && k != i && 0 <= p < |dens| ==>
              accepted[k, p] == old(accepted[k, p]) && suppressed[k, p] == old(suppressed[k, p])
    ensures forall k, c, p :: 0 <= k < probabilities.Length0 && k != i && 0 <= c < |cls| && 0 <= p < |dens| ==>
              probabilities[k, c, p] == old(probabilities[k, c, p])
  {
    var disc := Disc(cfg.distance);
    var j := order[n];
    ghost var before, after := Scan(dens, order, cfg, n), Scan(dens, order, cfg, n + 1);
    if !suppressed[i, j] {
      assert j !in before.suppressed;
      assert after == ScanState(before.accepted + {j}, before.suppressed + Neighbours(j, cfg.shape, disc));
      accepted[i, j] := true;
      TargetsInRange(j, cfg.shape, disc);
      forall u | 0 <= u < |disc| && Hits(j, disc[u], cfg.shape) {
        suppressed[i, Target(j, disc[u], cfg.shape.width)] := true;
      }
      assert forall p :: 0 <= p < |dens| ==> (suppressed[i, p] <==> p in after.suppressed);
      var probs := Normalise(ClassTotals(cls, j, cfg.shape, disc, weights));
      forall c | 0 <= c < |cls| {
        probabilities[i, c, j] := probs[c];
      }
      assert forall c, p :: 0 <= c < |cls| && 0 <= p < |dens| && p != j ==>
        ProbabilityAt(cls, c, p, cfg, weights, after.accepted) == ProbabilityAt(cls, c, p, cfg, weights, before.accepted);
    } else {
      assert after == before;
    }
  }

  /** Scans map i of the batch in the given order, writing row i of the
      three arrays and nothing else (the body of the loop over i). */
  method SuppressMap(i: nat, dens: seq<real>, cls: seq<seq<real>>, order: seq<int>, cfg: Config, weights: seq<real>,
                     accepted: array2<bool>, suppressed: array2<bool>, probabilities: array3<Float>)
    requires IsDescendingOrder(order, dens) && |dens| == cfg.shape.Size()
    requires forall c :: 0 <= c < |cls| ==> |cls[c]| == |dens|
    requires |weights| == |Disc(cfg.distance)|
    requires accepted != suppressed
    requires i < accepted.Length0 == suppressed.Length0 == probabilities.Length0
    requires accepted.Length1 == suppressed.Length1 == probabilities.Length2 == |dens|
    requires probabilities.Length1 == |cls|
    requires forall p :: 0 <= p < |dens| ==> !accepted[i, p] && !suppressed[i, p]
    requires forall c, p :: 0 <= c < |cls| && 0 <= p < |dens| ==> probabilities[i, c, p] == Finite(0.0)
    modifies accepted, suppressed, probabilities
    ensures forall p :: 0 <= p < |dens| ==> (accepted[i, p] <==> p in Greedy(dens, order, cfg).accepted)
    ensures forall p :: 0 <= p < |dens| ==> (suppressed[i, p] <==> p in Greedy(dens, order, cfg).suppressed)
    ensures forall c, p :: 0 <= c < |cls| && 0 <= p < |dens| ==>
              probabilities[i, c, p] == ProbabilityAt(cls, c, p, cfg, weights, Greedy(dens, order, cfg).accepted)
    ensures forall k, p :: 0 <= k < accepted.Length0 && k != i && 0 <= p < |dens| ==>
              accepted[k, p] == old(accepted[k, p]) && suppressed[k, p] == old(suppressed[k, p])
    ensures forall k, c, p :: 0 <= k < probabilities.Length0 && k != i && 0 <= c < |cls| && 0 <= p < |dens| ==>
              probabilities[k, c, p] == old(probabilities[k, c, p])
  {
    forall p | 0 <= p < |dens| && dens[p] < cfg.threshold {
      suppressed[i, p] := true;
    }
    for n := 0 to |order|
      invariant RowHolds(i, dens, cls, order, cfg, weights, n, accepted, suppressed, probabilities)
      invariant forall k, p :: 0 <= k < accepted.Length0 && k != i && 0 <= p < |dens| ==>
                  accepted[k, p] == old(accepted[k, p]) && suppressed[k, p] == old(suppressed[k, p])
      invariant forall k, c, p :: 0 <= k < probabilities.Length0 && k != i && 0 <= c < |cls| && 0 <= p < |dens| ==>
                  probabilities[k, c, p] == old(probabilities[k, c, p])
    {
      ScanStep(i, dens, cls, order, cfg, weights, n, accepted, suppressed, probabilities);
    }
  }

  /** The number of class channels of a batch. */
  function Channels(classes: seq<seq<seq<real>>>): nat
  {
    if |classes| == 0 then 0 else |classes[0]|
  }

  /** A batch of density maps with its class channels: one density row and
      Channels(classes) class rows per map, each of the map's size. */
  predicate IsBatch(density: seq<seq<real>>, classes: seq<seq<seq<real>>>, shape: Shape)
  {
    && |classes| == |density|
    && (forall i :: 0 <= i < |density| ==> |density[i]| == shape.Size())
    && (forall i :: 0 <= i < |classes| ==> |classes[i]| == Channels(classes))
    && (forall i, c :: 0 <= i < |classes| && 0 <= c < |classes[i]| ==> |classes[i][c]| == shape.Size())
  }

  /** Non-maximum suppression over a batch: map i is scanned in the order
      orders[i] (what np.argsort(-density[i]) returned); the result tells
      which positions are accepted and, at those, the class probabilities. */
  method NonMaximumSuppression(density: seq<seq<real>>, classes: seq<seq<seq<real>>>, cfg: Config,
                               weights: seq<real>, orders: seq<seq<int>>)
    returns (accepted: array2<bool>, probabilities: array3<Float>)
    requires IsBatch(density, classes, cfg.shape)
    requires |weights| == |Disc(cfg.distance)|
    requires |orders| == |density|
    requires forall i :: 0 <= i < |density| ==> IsDescendingOrder(orders[i], density[i])
    ensures accepted.Length0 == |density| && accepted.Length1 == cfg.shape.Size()
    ensures probabilities.Length0 == |density| && probabilities.Length1 == Channels(classes)
    ensures probabilities.Length2 == cfg.shape.Size()
    ensures forall i, p :: 0 <= i < |density| && 0 <= p < cfg.shape.Size() ==>
              (accepted[i, p] <==> p in Greedy(density[i], orders[i], cfg).accepted)
    ensures forall i, c, p :: 0 <= i < |density| && 0 <= c < Channels(classes) && 0 <= p < cfg.shape.Size() ==>
              probabilities[i, c, p] == ProbabilityAt(classes[i], c, p, cfg, weights, Greedy(density[i], orders[i], cfg).accepted)
  {
    var batch, size, channels := |density|, cfg.shape.Size(), Channels(classes);
    accepted := new bool[batch, size]((_, _) => false);
    var suppressed := new bool[batch, size]((_, _) => false);
    probabilities := new Float[batch, channels, size]((_, _, _) => Finite(0.0));
    for i := 0 to batch
      invariant forall k, p :: 0 <= k < i && 0 <= p < size ==>
                  (accepted[k, p] <==> p in Greedy(density[k], orders[k], cfg).accepted)
      invariant forall k, c, p :: 0 <= k < i && 0 <= c < channels && 0 <= p < size ==>
                  probabilities[k, c, p] == ProbabilityAt(classes[k], c, p, cfg, weights, Greedy(density[k], orders[k], cfg).accepted)
      invariant forall k, p :: i <= k < batch && 0 <= p < size ==> !accepted[k, p] && !suppressed[k, p]
      invariant forall k, c, p :: i <= k < batch && 0 <= c < channels && 0 <= p < size ==>
                  probabilities[k, c, p] == Finite(0.0)
    {
      SuppressMap(i, density[i], classes[i], orders[i], cfg, weights, accepted, suppressed, probabilities);
    }
  }
}
