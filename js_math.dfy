// The JavaScript number operations the core relies on, for integer operands,
// and the facts about Dafny's Euclidean division the proofs use.
module JsMath {

  /** JavaScript's `a % b` for b > 0: the remainder takes the sign of a
      (Dafny's own % is Euclidean and never negative). */
  function JsRem(a: int, b: int): (r: int)
    requires b > 0
    ensures a >= 0 ==> 0 <= r < b && r == a % b
    ensures a < 0 ==> -b < r <= 0
    ensures a < 0 ==> r == if a % b == 0 then 0 else a % b - b
  {
    if a >= 0 then a % b
    else
      NegativeRem(a, b);
      -((-a) % b)
  }

  /** For a negative dividend JavaScript's remainder is the Euclidean one
      moved down by b, except for an exact multiple. */
  lemma NegativeRem(a: int, b: int)
    requires b > 0 && a < 0
    ensures -((-a) % b) == if a % b == 0 then 0 else a % b - b
  {
    var q, m := a / b, a % b;
    DivFacts(a, b);
    assert (-q) * b == -(q * b);
    if m == 0 {
      DivUnique(-a, b, -q, 0);
    } else {
      assert (-q - 1) * b == -(q * b) - b;
      DivUnique(-a, b, -q - 1, b - m);
    }
  }

  lemma MulSign(a: int, w: int)
    requires w > 0
    ensures a >= 0 <==> a * w >= 0
  {
  }

  lemma DivFacts(idx: int, w: int)
    requires w > 0
    ensures idx == (idx / w) * w + idx % w && 0 <= idx % w < w
  {
  }

  lemma DivNonneg(idx: int, w: int)
    requires w > 0 && idx >= 0
    ensures idx / w >= 0
  {
    DivFacts(idx, w);
    MulSign(idx / w + 1, w);
    assert (idx / w + 1) * w == (idx / w) * w + w;
  }

  lemma DivUnique(idx: int, w: int, q: int, r: int)
    requires w > 0 && idx == q * w + r && 0 <= r < w
    ensures idx / w == q && idx % w == r
  {
    DivFacts(idx, w);
    var d := idx / w - q;
    assert d * w == r - idx % w;
    MulSign(d - 1, w);
    MulSign(-d - 1, w);
    assert (d - 1) * w == d * w - w;
    assert (-d - 1) * w == -(d * w) - w;
  }
}
