// Index-to-coordinate mapping, the row-level matrix copy and the cartesian
// product of two lists.
module ArrayUtils {
  import opened Types
  import opened JsMath

  /** `{ y: Math.floor(idx / w) % h, x: idx % w }`. For a positive divisor
      Dafny's `/` is the floor of the quotient, as Math.floor is. */
  function CoordsByIndex(idx: int, matrixWidth: int, matrixHeight: int): Coords
    requires matrixWidth > 0 && matrixHeight > 0
  {
    Coords(JsRem(idx, matrixWidth), JsRem(idx / matrixWidth, matrixHeight))
  }

  lemma DivBelow(idx: int, w: int, h: int)
    requires w > 0 && h > 0 && 0 <= idx < w * h
    ensures idx / w < h
  {
    DivFacts(idx, w);
    var q := idx / w;
    assert (h - q) * w == h * w - q * w;
    MulSign(h - q - 1, w);
    assert (h - q - 1) * w == (h - q) * w - w;
  }

  lemma ModSmall(q: int, h: int)
    requires 0 <= q < h
    ensures q % h == q
  {
    DivFacts(q, h);
    var d := q / h;
    MulSign(d - 1, h);
    MulSign(-d - 1, h);
    assert (d - 1) * h == d * h - h;
    assert (-d - 1) * h == -(d * h) - h;
    assert d == 0;
  }

  /** Every non-negative index lands inside the matrix (the `% h` folds rows
      beyond the last one back in). */
  lemma CoordsByIndexInBounds(idx: int, w: int, h: int)
    requires w > 0 && h > 0 && idx >= 0
    ensures InBounds(CoordsByIndex(idx, w, h), w, h)
  {
    DivNonneg(idx, w);
  }

  /** Inside the matrix the mapping inverts row-major order, and the `% h`
      changes nothing. */
  lemma CoordsByIndexRowMajor(idx: int, w: int, h: int)
    requires w > 0 && h > 0 && 0 <= idx < w * h
    ensures CoordsByIndex(idx, w, h).y == idx / w
    ensures CoordsByIndex(idx, w, h).y * w + CoordsByIndex(idx, w, h).x == idx
  {
    DivNonneg(idx, w);
    DivBelow(idx, w, h);
    DivFacts(idx, w);
    ModSmall(idx / w, h);
    assert JsRem(idx / w, h) == idx / w;
    assert JsRem(idx, w) == idx % w;
  }

  /** Distinct indices inside the matrix name distinct cells. */
  lemma CoordsByIndexInjective(i: int, j: int, w: int, h: int)
    requires w > 0 && h > 0 && 0 <= i < w * h && 0 <= j < w * h
    requires CoordsByIndex(i, w, h) == CoordsByIndex(j, w, h)
    ensures i == j
  {
    CoordsByIndexRowMajor(i, w, h);
    CoordsByIndexRowMajor(j, w, h);
  }

  /** Every cell of the matrix is named by the index y * w + x. */
  lemma CoordsByIndexOnto(c: Coords, w: int, h: int)
    requires w > 0 && h > 0 && InBounds(c, w, h)
    ensures 0 <= c.y * w + c.x < w * h
    ensures CoordsByIndex(c.y * w + c.x, w, h) == c
  {
    var idx := c.y * w + c.x;
    MulSign(c.y, w);
    MulSign(h - c.y - 1, w);
    assert (h - c.y - 1) * w == h * w - c.y * w - w;
    DivUnique(idx, w, c.y, c.x);
    CoordsByIndexRowMajor(idx, w, h);
  }

  /** `matrix.forEach(row => copy.push([...row]))`: a new list of rows holding
      the same elements. The elements are shared, not copied: for a grid they
      are the very same unit objects. */
  method CopyMatrix<T>(matrix: seq<seq<T>>) returns (copy: seq<seq<T>>)
    ensures |copy| == |matrix|
    ensures forall i :: 0 <= i < |matrix| ==> |copy[i]| == |matrix[i]|
    ensures forall i, j :: 0 <= i < |matrix| && 0 <= j < |matrix[i]| ==> copy[i][j] == matrix[i][j]
  {
    copy := [];
    for i := 0 to |matrix|
      invariant |copy| == i
      invariant forall k :: 0 <= k < i ==> copy[k] == matrix[k]
    {
      var row := matrix[i][..];
      copy := copy + [row];
    }
  }

  /** `b.map(bi => [ai, bi])`. */
  function Pairs<T>(ai: T, b: seq<T>): (r: seq<(T, T)>)
    ensures |r| == |b|
    ensures forall j :: 0 <= j < |b| ==> r[j] == (ai, b[j])
  {
    seq(|b|, j requires 0 <= j < |b| => (ai, b[j]))
  }

  /** `a.flatMap(ai => b.map(bi => [ai, bi]))`. */
  function Cartesian<T>(a: seq<T>, b: seq<T>): (r: seq<(T, T)>)
    ensures |r| == |a| * |b|
  {
    if a == [] then [] else Pairs(a[0], b) + Cartesian(a[1..], b)
  }

  /** The pair at position i * |b| + j is (a[i], b[j]). */
  lemma {:induction false} CartesianAt<T>(a: seq<T>, b: seq<T>, i: int, j: int)
    requires 0 <= i < |a| && 0 <= j < |b|
    ensures 0 <= i * |b| + j < |Cartesian(a, b)|
    ensures Cartesian(a, b)[i * |b| + j] == (a[i], b[j])
  {
    MulSign(|a| - 1 - i, |b|);
    assert (|a| - 1 - i) * |b| == |a| * |b| - i * |b| - |b|;
    if i > 0 {
      CartesianAt(a[1..], b, i - 1, j);
      assert (i - 1) * |b| + j + |b| == i * |b| + j;
      MulSign(i - 1, |b|);
    }
  }
}
