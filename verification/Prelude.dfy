// What the model's modules share: results, options, index ranges and division.
module Prelude {
  datatype Option<+T> = None | Some(value: T)

  datatype Result<+T, +E> = Ok(value: T) | Err(error: E)

  // 0 to n - 1, in order.
  function Indices(n: nat): (r: seq<nat>)
    ensures |r| == n && forall i :: 0 <= i < n ==> r[i] == i
  {
    seq(n, i => i)
  }

  lemma MultipleBound(k: int, m: int)
    requires m > 0
    ensures k >= 1 ==> k * m >= m
    ensures k <= -1 ==> k * m <= -m
  {
    if k >= 1 {
      assert (k - 1) * m >= 0;
    } else if k <= -1 {
      assert (-1 - k) * m >= 0;
    }
  }

  // Quotient and remainder are determined by their equation.
  lemma DivisionIs(x: nat, q: nat, r: nat, m: nat)
    requires r < m && x == q * m + r
    ensures x / m == q && x % m == r
  {
    var p := x / m;
    assert x == p * m + x % m;
    assert (q - p) * m == q * m - p * m;
    MultipleBound(q - p, m);
  }

  lemma Inside(r: nat, s: nat, a: nat, b: nat)
    requires r < b && s < a
    ensures a * r + s < a * b
  {
    MultipleBound(b - r, a);
    assert (b - r) * a == a * b - a * r;
  }

  // Dividing by a and then by b is dividing by a * b.
  lemma DivideTwice(x: nat, a: nat, b: nat)
    requires a > 0 && b > 0
    ensures a * b > 0 && (x / a) / b == x / (a * b)
  {
    var y := x / a;
    var q, r, s := y / b, y % b, x % a;
    MultipleBound(b, a);
    Inside(r, s, a, b);
    assert x == a * y + s && y == b * q + r;
    assert a * (b * q + r) == q * (a * b) + a * r;
    DivisionIs(x, q, a * r + s, a * b);
  }
}
