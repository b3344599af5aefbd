/** Real-valued stand-ins for the floating-point values the arrays hold. */
module Floats {

  /** A float entry: a finite value, or the NaN/infinity that a division by
      zero (or the mean of no samples) produces. */
  datatype Float = Finite(value: real) | NonFinite

  /** Sum of a sequence of reals, left to right. */
  function Sum(s: seq<real>): real
  {
    if |s| == 0 then 0.0 else s[0] + Sum(s[1..])
  }

  /** Every entry divided by the same divisor (element-wise array division). */
  function Divided(s: seq<real>, d: real): (r: seq<real>)
    requires d != 0.0
    ensures |r| == |s|
    ensures forall k :: 0 <= k < |s| ==> r[k] * d == s[k]
  {
    if |s| == 0 then [] else [s[0] / d] + Divided(s[1..], d)
  }

  lemma {:induction false} SumDivided(s: seq<real>, d: real)
    requires d != 0.0
    ensures Sum(Divided(s, d)) == Sum(s) / d
  {
    if |s| > 0 {
      SumDivided(s[1..], d);
      assert Divided(s, d)[1..] == Divided(s[1..], d);
      assert s[0] / d + Sum(s[1..]) / d == (s[0] + Sum(s[1..])) / d;
    }
  }

  lemma {:induction false} SumNonNegative(s: seq<real>)
    requires forall k :: 0 <= k < |s| ==> s[k] >= 0.0
    ensures Sum(s) >= 0.0
  {
    if |s| > 0 {
      SumNonNegative(s[1..]);
    }
  }

  lemma {:induction false} SumOfConstant(s: seq<real>, v: real)
    requires forall k :: 0 <= k < |s| ==> s[k] == v
    ensures Sum(s) == |s| as real * v
  {
    if |s| > 0 {
      SumOfConstant(s[1..], v);
    }
  }

  /** The reals of s as finite float entries. */
  function AsFinite(s: seq<real>): (r: seq<Float>)
    ensures |r| == |s| && forall k :: 0 <= k < |s| ==> r[k] == Finite(s[k])
  {
    seq(|s|, k requires 0 <= k < |s| => Finite(s[k]))
  }

  /** The values of a sequence of finite float entries. */
  function Values(fs: seq<Float>): (r: seq<real>)
    requires forall k :: 0 <= k < |fs| ==> fs[k].Finite?
    ensures |r| == |fs| && forall k :: 0 <= k < |fs| ==> fs[k] == Finite(r[k])
  {
    seq(|fs|, k requires 0 <= k < |fs| => fs[k].value)
  }

  lemma DivSelf(x: real)
    requires x != 0.0
    ensures x / x == 1.0
  {
  }

  lemma {:induction false} SumConcat(a: seq<real>, b: seq<real>)
    ensures Sum(a + b) == Sum(a) + Sum(b)
  {
    if |a| > 0 {
      SumConcat(a[1..], b);
      assert (a + b)[1..] == a[1..] + b;
    } else {
      assert a + b == b;
    }
  }

  /** Entry-wise sum of two sequences of the same length. */
  function Add(a: seq<real>, b: seq<real>): (r: seq<real>)
    requires |a| == |b|
    ensures |r| == |a|
  {
    seq(|a|, k requires 0 <= k < |a| => a[k] + b[k])
  }

  lemma {:induction false} SumAdd(a: seq<real>, b: seq<real>)
    requires |a| == |b|
    ensures Sum(Add(a, b)) == Sum(a) + Sum(b)
  {
    if |a| > 0 {
      SumAdd(a[1..], b[1..]);
      assert Add(a, b)[1..] == Add(a[1..], b[1..]);
    }
  }
}
