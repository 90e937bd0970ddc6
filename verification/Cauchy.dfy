/** Rows of a Cauchy matrix, 1 / (x + y), and why any of them with enough rows have no kernel. */
module Cauchy {
  import opened Gf256
  import opened Linear

  /** The row 1 / (x + y) over the columns `ys`. */
  ghost function Row(x: Byte, ys: Vector): (r: Vector)
    requires x !in ys
    ensures |r| == |ys| && forall j :: 0 <= j < |r| ==> r[j] != ZERO
  {
    seq(|ys|, j requires 0 <= j < |ys| => AddSelf(x, ys[j]); Inv(Add(x, ys[j])))
  }

  function Total(v: Vector): (r: Byte) {
    if |v| == 0 then ZERO else Add(Total(v[..|v| - 1]), v[|v| - 1])
  }

  /** Each entry times (y_j + y). */
  function Weighted(v: Vector, ys: Vector, y: Byte): (r: Vector)
    requires |v| == |ys|
    ensures |r| == |v|
  {
    seq(|v|, j requires 0 <= j < |v| => Mul(v[j], Add(ys[j], y)))
  }

  /** Each entry times the entry of the row. */
  function Divided(v: Vector, row: Vector): (r: Vector)
    requires |v| == |row|
    ensures |r| == |v|
  {
    seq(|v|, j requires 0 <= j < |v| => Mul(v[j], row[j]))
  }

  lemma DotRow(x: Byte, ys: Vector, v: Vector)
    requires |v| == |ys| > 0 && x !in ys
    ensures Add(x, ys[|ys| - 1]) != ZERO
    ensures Dot(Row(x, ys), v) ==
            Add(Dot(Row(x, ys[..|ys| - 1]), v[..|ys| - 1]), Mul(Inv(Add(x, ys[|ys| - 1])), v[|ys| - 1]))
  {
    hide Add, Mul, Inv;
    AddSelf(x, ys[|ys| - 1]);
    assert Row(x, ys)[..|ys| - 1] == Row(x, ys[..|ys| - 1]);
  }

  // (x + y) / (x + yj) == 1 + (yj + y) / (x + yj)
  lemma ClearTerm(x: Byte, y: Byte, yj: Byte, v: Byte)
    requires x != yj
    ensures Add(x, yj) != ZERO
    ensures Mul(Add(x, y), Mul(Inv(Add(x, yj)), v)) == Add(v, Mul(Inv(Add(x, yj)), Mul(v, Add(yj, y))))
  {
    AddSelf(x, yj);
    AddSwap(x, yj, yj, y);
    AddSelf(yj, yj);
    AddZero(Add(x, y));
    AddSwap(x, y, yj, yj);
    AddComm(y, yj);
    var d, e := Add(x, yj), Add(yj, y);
    assert Add(x, y) == Add(d, e);
    hide Add, Mul, Inv;
    var t := Inv(d);
    MulAddLeft(d, e, Mul(t, v));
    MulAssoc(d, t, v);
    MulInv(d);
    MulComm(ONE, v);
    MulOne(v);
    MulAssoc(e, t, v);
    MulComm(e, t);
    MulAssoc(t, e, v);
    MulComm(e, v);
  }

  /** Multiplying the row's equation by (x + y): the sum of the entries, and the same row over the
      weighted ones. */
  lemma {:induction false} Clear(x: Byte, y: Byte, ys: Vector, v: Vector)
    requires |v| == |ys| && x !in ys
    ensures Mul(Add(x, y), Dot(Row(x, ys), v)) == Add(Total(v), Dot(Row(x, ys), Weighted(v, ys, y)))
  {
    hide Add, Mul, Inv;
    var n := |v| - 1;
    if n < 0 {
      MulZero(Add(x, y));
      AddZero(ZERO);
    } else {
      Clear(x, y, ys[..n], v[..n]);
      ClearTerm(x, y, ys[n], v[n]);
      DotRow(x, ys, v);
      DotRow(x, ys, Weighted(v, ys, y));
      assert Weighted(v, ys, y)[..n] == Weighted(v[..n], ys[..n], y);
      hide Dot, Row;
      var d, w := Dot(Row(x, ys[..n]), v[..n]), Dot(Row(x, ys[..n]), Weighted(v[..n], ys[..n], y));
      var t := Inv(Add(x, ys[n]));
      MulAdd(Add(x, y), d, Mul(t, v[n]));
      AddSwap(Total(v[..n]), w, v[n], Mul(t, Mul(v[n], Add(ys[n], y))));
    }
  }

  // 1 / (x + y) + 1 / (z + y) == (x + z) / ((x + y) (z + y))
  lemma DifferenceTerm(x: Byte, z: Byte, y: Byte, w: Byte)
    requires x != y && z != y
    ensures Add(x, y) != ZERO && Add(z, y) != ZERO
    ensures Add(Mul(Inv(Add(x, y)), w), Mul(Inv(Add(z, y)), w)) ==
            Mul(Add(x, z), Mul(Inv(Add(x, y)), Mul(w, Inv(Add(z, y)))))
  {
    AddSelf(x, y);
    AddSelf(z, y);
    AddSwap(x, y, z, y);
    AddSelf(y, y);
    AddZero(Add(x, z));
    var d, e := Add(x, y), Add(z, y);
    assert Add(x, z) == Add(d, e);
    hide Add, Mul, Inv;
    var s, t := Inv(d), Inv(e);
    var p := Mul(s, Mul(w, t));
    MulAddLeft(d, e, p);
    MulAssoc(d, s, Mul(w, t));
    MulInv(d);
    MulComm(ONE, Mul(w, t));
    MulOne(Mul(w, t));
    MulComm(w, t);
    MulComm(e, p);
    MulAssoc(s, Mul(w, t), e);
    MulAssoc(w, t, e);
    MulComm(t, e);
    MulInv(e);
    MulOne(w);
    AddComm(Mul(t, w), Mul(s, w));
  }

  /** Two rows over the same entries differ by (x + z) times a row over the divided entries. */
  lemma {:induction false} Difference(x: Byte, z: Byte, ys: Vector, w: Vector)
    requires |w| == |ys| && x !in ys && z !in ys
    ensures Add(Dot(Row(x, ys), w), Dot(Row(z, ys), w)) ==
            Mul(Add(x, z), Dot(Row(x, ys), Divided(w, Row(z, ys))))
  {
    hide Add, Mul, Inv;
    var n := |w| - 1;
    if n < 0 {
      MulZero(Add(x, z));
      AddZero(ZERO);
    } else {
      Difference(x, z, ys[..n], w[..n]);
      DifferenceTerm(x, z, ys[n], w[n]);
      var u := Divided(w, Row(z, ys));
      assert u[..n] == Divided(w[..n], Row(z, ys[..n]));
      DotRow(x, ys, w);
      DotRow(z, ys, w);
      DotRow(x, ys, u);
      hide Dot, Row;
      var s, t := Inv(Add(x, ys[n])), Inv(Add(z, ys[n]));
      AddSwap(Dot(Row(x, ys[..n]), w[..n]), Mul(s, w[n]), Dot(Row(z, ys[..n]), w[..n]), Mul(t, w[n]));
      MulAdd(Add(x, z), Dot(Row(x, ys[..n]), u[..n]), Mul(s, Mul(w[n], t)));
    }
  }

  /** A vector both rows send to zero gives one with fewer entries that the row of `x` still does. */
  lemma Eliminate(x: Byte, z: Byte, y: Byte, ys: Vector, v: Vector)
    requires |v| == |ys| && x !in ys && z !in ys && x != z
    requires Dot(Row(x, ys), v) == ZERO && Dot(Row(z, ys), v) == ZERO
    ensures Dot(Row(x, ys), Divided(Weighted(v, ys, y), Row(z, ys))) == ZERO
  {
    hide Add, Mul, Inv, Weighted, Divided;
    var w := Weighted(v, ys, y);
    Clear(x, y, ys, v);
    Clear(z, y, ys, v);
    MulZero(Add(x, y));
    MulZero(Add(z, y));
    AddSelf(Total(v), Dot(Row(x, ys), w));
    AddSelf(Total(v), Dot(Row(z, ys), w));
    AddSelf(Dot(Row(x, ys), w), Dot(Row(z, ys), w));
    Difference(x, z, ys, w);
    AddSelf(x, z);
    MulNonzero(Add(x, z), Dot(Row(x, ys), Divided(w, Row(z, ys))));
  }

  function Nonzeros(v: Vector): (n: nat)
    ensures n <= |v|
  {
    if |v| == 0 then 0 else Nonzeros(v[..|v| - 1]) + if v[|v| - 1] == ZERO then 0 else 1
  }

  lemma {:induction false} NonzerosNone(v: Vector)
    ensures Nonzeros(v) == 0 <==> forall j :: 0 <= j < |v| ==> v[j] == ZERO
  {
    if |v| > 0 {
      NonzerosNone(v[..|v| - 1]);
    }
  }

  lemma {:induction false} NonzerosSubset(u: Vector, v: Vector)
    requires |u| == |v| && forall j :: 0 <= j < |u| && u[j] != ZERO ==> v[j] != ZERO
    ensures Nonzeros(u) <= Nonzeros(v)
    ensures (exists j :: 0 <= j < |u| && u[j] == ZERO && v[j] != ZERO) ==> Nonzeros(u) < Nonzeros(v)
  {
    var n := |u| - 1;
    if n >= 0 {
      NonzerosSubset(u[..n], v[..n]);
    }
  }

  ghost predicate Distinct(s: Vector) {
    forall i, j :: 0 <= i < j < |s| ==> s[i] != s[j]
  }

  /** A vector with no more nonzero entries than there are rows sending it to zero is zero. */
  lemma {:induction false} NoKernel(xs: Vector, ys: Vector, v: Vector)
    requires |v| == |ys| && Distinct(xs) && Distinct(ys) && forall x <- xs :: x !in ys
    requires Nonzeros(v) <= |xs|
    requires forall x <- xs :: Dot(Row(x, ys), v) == ZERO
    ensures forall j :: 0 <= j < |v| ==> v[j] == ZERO
  {
    hide Add, Mul, Inv;
    NonzerosNone(v);
    if Nonzeros(v) > 0 {
      var j0: nat :| j0 < |v| && v[j0] != ZERO;
      var z := xs[0];
      var u := Divided(Weighted(v, ys, ys[j0]), Row(z, ys));
      forall j | 0 <= j < |v|
        ensures u[j] == ZERO <==> v[j] == ZERO || j == j0
      {
        AddSelf(ys[j], ys[j0]);
        MulNonzero(v[j], Add(ys[j], ys[j0]));
        MulNonzero(Mul(v[j], Add(ys[j], ys[j0])), Row(z, ys)[j]);
      }
      NonzerosSubset(u, v);
      forall x <- xs[1..]
        ensures Dot(Row(x, ys), u) == ZERO
      {
        Eliminate(x, z, ys[j0], ys, v);
      }
      NoKernel(xs[1..], ys, u);
      DotSingle(Row(z, ys), v, j0);
      MulNonzero(Row(z, ys)[j0], v[j0]);
    }
  }
}
