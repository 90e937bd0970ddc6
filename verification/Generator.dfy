/** The generator matrix of the code: the identity for the data pieces, a Cauchy matrix below it for
    the parity pieces; and that any k of its rows are independent. */
module Generator {
  import opened Gf256
  import opened Linear
  import opened Cauchy

  /** The columns' values y_i = i. */
  function Columns(k: nat): (ys: Vector)
    ensures |ys| == k && forall c :: 0 <= c < k ==> ys[c] == OfNat(c)
  {
    seq(k, c requires 0 <= c < k => OfNat(c))
  }

  lemma OfNatInjective(m: nat, n: nat)
    requires m < 256 && n < 256 && OfNat(m) == OfNat(n)
    ensures m == n
  {
    hide OfNat, Value;
    ValueOfNat(m);
    ValueOfNat(n);
  }

  lemma NotAColumn(k: nat, r: nat)
    requires k <= r < 256
    ensures OfNat(r) !in Columns(k)
  {
    hide OfNat;
    if OfNat(r) in Columns(k) {
      var c :| 0 <= c < k && Columns(k)[c] == OfNat(r);
      OfNatInjective(c, r);
    }
  }

  /** Row `r` of the generator. */
  ghost function GeneratorRow(k: nat, r: nat): (row: Vector)
    requires r < 256
    ensures |row| == k
  {
    if r < k then Unit(k, r) else NotAColumn(k, r); Row(OfNat(r), Columns(k))
  }

  ghost predicate Ascending(rows: seq<nat>) {
    forall i, j :: 0 <= i < j < |rows| ==> rows[i] < rows[j]
  }

  /** Zero at each of `ds`, a vector has that many nonzero entries fewer. */
  lemma {:induction false} ZerosAt(v: Vector, ds: seq<nat>)
    requires Ascending(ds) && forall i :: 0 <= i < |ds| ==> ds[i] < |v| && v[ds[i]] == ZERO
    ensures Nonzeros(v) + |ds| <= |v|
    decreases |v|
  {
    var n, m := |v| - 1, |ds| - 1;
    if m >= 0 {
      assert ds[m] < |v|;
      ZerosAt(v[..n], if ds[m] == n then ds[..m] else ds);
    }
  }

  /** How many of an ascending list lie below `k`: they come first. */
  lemma Split(rows: seq<nat>, k: nat) returns (d: nat)
    requires Ascending(rows)
    ensures d <= |rows|
    ensures forall i :: 0 <= i < d ==> rows[i] < k
    ensures forall i :: d <= i < |rows| ==> k <= rows[i]
  {
    d := 0;
    while d < |rows| && rows[d] < k
      invariant d <= |rows| && forall i :: 0 <= i < d ==> rows[i] < k
    {
      d := d + 1;
    }
  }

  lemma {:induction false} AtLeast(rows: seq<nat>)
    requires Ascending(rows)
    ensures forall i :: 0 <= i < |rows| ==> rows[i] >= i
  {
    var n := |rows| - 1;
    if n > 0 {
      AtLeast(rows[..n]);
      assert rows[n - 1] >= n - 1;
    }
  }

  lemma ColumnsDistinct(k: nat)
    requires k <= 256
    ensures Distinct(Columns(k))
  {
    hide OfNat;
    forall i, j | 0 <= i < j < k
      ensures Columns(k)[i] != Columns(k)[j]
    {
      if OfNat(i) == OfNat(j) {
        OfNatInjective(i, j);
      }
    }
  }

  /** The values x_r = r of the parity rows `rows`. */
  function Points(rows: seq<nat>): (xs: Vector)
    ensures |xs| == |rows| && forall i :: 0 <= i < |rows| ==> xs[i] == OfNat(rows[i])
  {
    seq(|rows|, i requires 0 <= i < |rows| => OfNat(rows[i]))
  }

  lemma PointsDistinct(k: nat, rows: seq<nat>)
    requires Ascending(rows) && forall i :: 0 <= i < |rows| ==> k <= rows[i] < 256
    ensures Distinct(Points(rows)) && forall x <- Points(rows) :: x !in Columns(k)
  {
    hide OfNat;
    var xs := Points(rows);
    forall i, j | 0 <= i < j < |xs|
      ensures xs[i] != xs[j]
    {
      if xs[i] == xs[j] {
        OfNatInjective(rows[i], rows[j]);
      }
    }
    forall i | 0 <= i < |xs|
      ensures xs[i] !in Columns(k)
    {
      NotAColumn(k, rows[i]);
    }
  }

  /** `v` is sent to zero by each of the generator rows `rows`. */
  ghost predicate InKernel(k: nat, rows: seq<nat>, v: Vector) {
    |v| == k && forall i :: 0 <= i < |rows| ==> rows[i] < 256 && Dot(GeneratorRow(k, rows[i]), v) == ZERO
  }

  lemma DataRows(k: nat, rows: seq<nat>, v: Vector)
    requires Ascending(rows) && InKernel(k, rows, v) && forall i :: 0 <= i < |rows| ==> rows[i] < k
    ensures Nonzeros(v) + |rows| <= k
  {
    hide Add, Mul, Inv, OfNat;
    forall i | 0 <= i < |rows|
      ensures v[rows[i]] == ZERO
    {
      DotUnit(k, rows[i], v);
    }
    ZerosAt(v, rows);
  }

  lemma ParityRows(k: nat, rows: seq<nat>, v: Vector)
    requires Ascending(rows) && InKernel(k, rows, v) && forall i :: 0 <= i < |rows| ==> k <= rows[i] < 256
    requires k <= 256 && Nonzeros(v) <= |rows|
    ensures forall c :: 0 <= c < k ==> v[c] == ZERO
  {
    hide Add, Mul, Inv, OfNat, Dot, Nonzeros;
    ColumnsDistinct(k);
    PointsDistinct(k, rows);
    var xs := Points(rows);
    forall x <- xs
      ensures Dot(Row(x, Columns(k)), v) == ZERO
    {
      var i :| 0 <= i < |xs| && xs[i] == x;
      assert Dot(GeneratorRow(k, rows[i]), v) == ZERO;
    }
    NoKernel(xs, Columns(k), v);
  }

  /** Any k rows of the generator are independent: only the zero column is sent to zero by all. */
  lemma Independent(k: nat, rows: seq<nat>, v: Vector)
    requires |rows| == k && Ascending(rows) && InKernel(k, rows, v)
    ensures forall c :: 0 <= c < k ==> v[c] == ZERO
  {
    hide Dot, Nonzeros, GeneratorRow;
    AtLeast(rows);
    assert k > 0 ==> rows[k - 1] < 256;
    var d := Split(rows, k);
    DataRows(k, rows[..d], v);
    ParityRows(k, rows[d..], v);
  }

  /** The matrix, entry by entry: the identity above, and below the inverse of the sum of the two indices. */
  lemma RowMeans(k: nat, r: nat, c: nat)
    requires r < 256 && c < k
    ensures r < k ==> GeneratorRow(k, r)[c] == if r == c then ONE else ZERO
    ensures r >= k ==> Mul(Add(OfNat(r), OfNat(c)), GeneratorRow(k, r)[c]) == ONE
  {
    hide Mul, Add, OfNat, Inv;
    if r >= k {
      NotAColumn(k, r);
      assert Columns(k)[c] == OfNat(c);
      AddSelf(OfNat(r), OfNat(c));
      MulInv(Add(OfNat(r), OfNat(c)));
    }
  }
}
