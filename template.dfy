/** The circular matching template: nA angular rows, widened by `margin`
    rows at each end while the Gaussian spots are laid out, then folded so
    that what fell into a margin wraps round to the opposite end. */
module Template {

  import opened Floats

  /** Every row of the table has `width` entries. */
  predicate HasWidth(t: seq<seq<real>>, width: nat)
  {
    forall p :: 0 <= p < |t| ==> |t[p]| == width
  }

  /** Column j of a table. */
  function ColumnOf(t: seq<seq<real>>, j: nat): (c: seq<real>)
    requires forall p :: 0 <= p < |t| ==> j < |t[p]|
    ensures |c| == |t|
  {
    seq(|t|, p requires 0 <= p < |t| => t[p][j])
  }

  /** Entry (i, j) of the folded template: row i + m of the widened
      template, plus the end-margin row nA rows further on when row i + m is
      in the first m rows after the leading margin, plus the leading-margin
      row nA rows back when row i + m is in the last m rows before the end
      margin. */
  function FoldedEntry(raw: seq<seq<real>>, nA: nat, m: nat, i: nat, j: nat): real
    requires |raw| == nA + 2 * m && HasWidth(raw, 2 * m + 1)
    requires i < nA && j < 2 * m + 1
  {
    var p := i + m;
    raw[p][j] + (if p < 2 * m then raw[p + nA][j] else 0.0) + (if p >= nA then raw[p - nA][j] else 0.0)
  }

  /** The folded template as a table of nA rows. */
  function Folded(raw: seq<seq<real>>, nA: nat, m: nat): (t: seq<seq<real>>)
    requires |raw| == nA + 2 * m && HasWidth(raw, 2 * m + 1)
    ensures |t| == nA && HasWidth(t, 2 * m + 1)
  {
    seq(nA, i requires 0 <= i < nA =>
      seq(2 * m + 1, j requires 0 <= j < 2 * m + 1 => FoldedEntry(raw, nA, m, i, j)))
  }

  /** The fold and trim of make_circular_template, on the widened template
      raw (nA + 2m rows of 2m + 1 Gaussian sums): adds the last m rows onto
      rows m .. 2m-1, then the first m rows onto rows nA .. nA+m-1, then
      keeps rows m .. nA+m-1. */
  method MakeCircularTemplate(raw: seq<seq<real>>, nA: nat, m: nat) returns (template: array2<real>)
    requires m >= 1
    requires |raw| == nA + 2 * m && HasWidth(raw, 2 * m + 1)
    ensures template.Length0 == nA && template.Length1 == 2 * m + 1
    ensures forall i, j :: 0 <= i < nA && 0 <= j < 2 * m + 1 ==> template[i, j] == Folded(raw, nA, m)[i][j]
  {
    var rows, width := nA + 2 * m, 2 * m + 1;
    var t := new real[rows, width]((p, j) requires 0 <= p < rows && 0 <= j < width => raw[p][j]);
    forall p, j | m <= p < 2 * m && 0 <= j < width {
      t[p, j] := t[p, j] + t[p + nA, j];
    }
    assert forall p, j :: 0 <= p < rows && 0 <= j < width ==>
      t[p, j] == raw[p][j] + (if m <= p < 2 * m then raw[p + nA][j] else 0.0);
    forall p, j | nA <= p < nA + m && 0 <= j < width {
      t[p, j] := t[p, j] + t[p - nA, j];
    }
    assert forall p, j :: m <= p < nA + m && 0 <= j < width ==>
      t[p, j] == raw[p][j] + (if p < 2 * m then raw[p + nA][j] else 0.0) + (if p >= nA then raw[p - nA][j] else 0.0);
    template := new real[nA, width];
    forall i, j | 0 <= i < nA && 0 <= j < width {
      template[i, j] := t[i + m, j];
    }
  }

  /** Folding loses no weight: when nA >= m every margin row lands inside
      the kept rows, so each column of the template has the same total as
      the widened template. */
  lemma FoldKeepsWeight(raw: seq<seq<real>>, nA: nat, m: nat, j: nat)
    requires |raw| == nA + 2 * m && HasWidth(raw, 2 * m + 1)
    requires nA >= m && j < 2 * m + 1
    ensures Sum(ColumnOf(Folded(raw, nA, m), j)) == Sum(ColumnOf(raw, j))
  {
    var c := ColumnOf(raw, j);
    var kept, tail, head := c[m..nA + m], c[nA + m..], c[..m];
    var zeros := seq(nA - m, _ => 0.0);
    var y, z := tail + zeros, zeros + head;
    var folded := ColumnOf(Folded(raw, nA, m), j);
    assert folded == Add(Add(kept, y), z);
    SumAdd(Add(kept, y), z);
    SumAdd(kept, y);
    SumConcat(tail, zeros);
    SumConcat(zeros, head);
    SumOfConstant(zeros, 0.0);
    assert c == head + kept + tail;
    SumConcat(head + kept, tail);
    SumConcat(head, kept);
  }
}
