/**
 * Dense matrices and the inner product every matrix-multiply kernel in the
 * repository accumulates. A matrix is either a sequence of rows or a flat
 * row-major sequence; entries are mathematical integers.
 */
module Dense {

  /** Sum of u[k] * v[k], accumulated for k = 0, 1, ... as the kernels' `+=` loops do. */
  function Dot(u: seq<int>, v: seq<int>): int
    requires |u| == |v|
    decreases |u|
  {
    if |u| == 0 then 0 else Dot(u[..|u| - 1], v[..|v| - 1]) + u[|u| - 1] * v[|v| - 1]
  }

  /** Every row of m has at least `cols` entries. */
  predicate HasColumns(m: seq<seq<int>>, cols: int)
  {
    forall i :: 0 <= i < |m| ==> cols <= |m[i]|
  }

  /** Column j of the first n rows of m. */
  function Column(m: seq<seq<int>>, j: int, n: int): (c: seq<int>)
    requires 0 <= j && 0 <= n <= |m| && HasColumns(m, j + 1)
    ensures |c| == n && forall k :: 0 <= k < n ==> c[k] == m[k][j]
  {
    seq(n, k requires 0 <= k < n => m[k][j])
  }

  /** The rows x cols matrix whose every entry is 0. */
  function ZeroMatrix(rows: nat, cols: nat): (z: seq<seq<int>>)
    ensures |z| == rows && forall i :: 0 <= i < rows ==> z[i] == seq(cols, _ => 0)
  {
    seq(rows, _ => seq(cols, _ => 0))
  }

  /** Row i of a flat row-major matrix with `cols` columns. */
  function FlatRow(a: seq<int>, cols: nat, i: nat): (r: seq<int>)
    requires (i + 1) * cols <= |a|
    ensures |r| == cols && forall k :: 0 <= k < cols ==> r[k] == a[i * cols + k]
  {
    a[i * cols .. (i + 1) * cols]
  }

  /** Column j (its first n entries) of a flat row-major matrix with `cols` columns. */
  function FlatColumn(b: seq<int>, cols: nat, j: nat, n: nat): (c: seq<int>)
    requires j < cols && n * cols <= |b|
    ensures |c| == n
    ensures forall k :: 0 <= k < n ==> k * cols + j < |b| && c[k] == b[k * cols + j]
  {
    assert forall k :: 0 <= k < n ==> k * cols + j < |b| by {
      forall k | 0 <= k < n ensures k * cols + j < |b| {
        FlatIndex(cols, k, j, n);
      }
    }
    seq(n, k requires 0 <= k < n => b[k * cols + j])
  }

  /** Entry (k, j) of a flat matrix with n rows and `cols` columns lies inside it. */
  lemma FlatIndex(cols: nat, k: nat, j: nat, n: nat)
    requires j < cols && k < n
    ensures k * cols + j < n * cols
  {
    calc {
      k * cols + j;
    <
      k * cols + cols;
    ==
      (k + 1) * cols;
    <=  { MulMono(k + 1, n, cols); }
      n * cols;
    }
  }

  lemma MulMono(x: nat, y: nat, c: nat)
    requires x <= y
    ensures x * c <= y * c
  {
  }

  lemma MulDistrib(x: int, y: int, c: int)
    ensures (x + y) * c == x * c + y * c
  {
  }

  /** The only multiple of c > 0 in 0 .. c - 1 is 0 * c. */
  lemma SmallMultiple(d: int, c: nat, r: int)
    requires c > 0 && d * c == r && 0 <= r < c
    ensures d == 0
  {
  }

  /** Integer division by d > 0 rounds down: c lies in the d-wide stretch that starts at q * d, q = c / d. */
  lemma Quotient(c: nat, d: nat) returns (q: nat)
    requires d > 0
    ensures q == c / d && q * d <= c < q * d + d
  {
    q := c / d;
    assert c == q * d + c % d;
  }

  /** n rows of c > 0 entries hold exactly n * c entries, so a division by c recovers n. */
  lemma MulDiv(n: nat, c: nat)
    requires c > 0
    ensures (n * c) / c == n
  {
    var q, r := (n * c) / c, (n * c) % c;
    MulDistrib(n, -q, c);
    SmallMultiple(n - q, c, r);
  }

  /** Dot is linear in its first argument's last entry: the step the `+=` loops take. */
  lemma {:induction false} DotSnoc(u: seq<int>, v: seq<int>, x: int, y: int)
    requires |u| == |v|
    ensures Dot(u + [x], v + [y]) == Dot(u, v) + x * y
  {
    assert (u + [x])[..|u|] == u;
    assert (v + [y])[..|v|] == v;
  }

  /** One more entry of each vector adds their product: the step of a `+=` loop over k. */
  lemma DotPrefix(u: seq<int>, v: seq<int>, k: nat)
    requires |u| == |v| && k < |u|
    ensures Dot(u[..k + 1], v[..k + 1]) == Dot(u[..k], v[..k]) + u[k] * v[k]
  {
    assert u[..k + 1][..k] == u[..k] && v[..k + 1][..k] == v[..k];
  }

  /** The dot product of anything with a zero vector is 0. */
  lemma {:induction false} DotZeroRight(u: seq<int>, v: seq<int>)
    requires |u| == |v| && forall k :: 0 <= k < |v| ==> v[k] == 0
    ensures Dot(u, v) == 0
  {
    if |u| > 0 {
      DotZeroRight(u[..|u| - 1], v[..|v| - 1]);
    }
  }

  /** Dot of u with a unit vector e_j picks out u[j]. */
  lemma {:induction false} DotUnit(u: seq<int>, v: seq<int>, j: int)
    requires |u| == |v| && 0 <= j < |v|
    requires v[j] == 1 && forall k :: 0 <= k < |v| && k != j ==> v[k] == 0
    ensures Dot(u, v) == u[j]
  {
    var n := |u|;
    if j == n - 1 {
      DotZeroRight(u[..n - 1], v[..n - 1]);
    } else {
      DotUnit(u[..n - 1], v[..n - 1], j);
    }
  }
}
