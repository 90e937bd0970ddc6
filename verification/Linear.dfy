/** Vectors and row operations over GF(2^8). */
module Linear {
  import opened Gf256

  type Vector = seq<Byte>
  type Matrix = seq<seq<Byte>>

  function Dot(u: Vector, v: Vector): (r: Byte)
    requires |u| == |v|
  {
    if |u| == 0 then ZERO
    else Add(Dot(u[..|u| - 1], v[..|v| - 1]), Mul(u[|u| - 1], v[|v| - 1]))
  }

  function Plus(u: Vector, v: Vector): (r: Vector)
    requires |u| == |v|
  {
    seq(|u|, i requires 0 <= i < |u| => Add(u[i], v[i]))
  }

  function Scaled(s: Byte, u: Vector): (r: Vector) {
    seq(|u|, i requires 0 <= i < |u| => Mul(s, u[i]))
  }

  function Zeros(n: nat): (r: Vector) {
    seq(n, i => ZERO)
  }

  function Unit(n: nat, r: nat): (u: Vector) {
    seq(n, i => if i == r then ONE else ZERO)
  }

  ghost predicate IsMatrix(m: Matrix, rows: nat, cols: nat) {
    |m| == rows && forall r :: 0 <= r < rows ==> |m[r]| == cols
  }

  /** The combination of the rows of `m` with the coefficients `u`. */
  ghost function Combine(u: Vector, m: Matrix, cols: nat): (r: Vector)
    requires IsMatrix(m, |u|, cols)
    ensures |r| == cols
  {
    if |u| == 0 then Zeros(cols)
    else Plus(Combine(u[..|u| - 1], m[..|m| - 1], cols), Scaled(u[|u| - 1], m[|m| - 1]))
  }

  /** `m` times the column `v`. */
  ghost function Image(m: Matrix, v: Vector): (r: Vector)
    requires IsMatrix(m, |m|, |v|)
    ensures |r| == |m|
  {
    seq(|m|, r requires 0 <= r < |m| => Dot(m[r], v))
  }

  // ---- the dot product is bilinear -------------------------------------------

  lemma {:induction false} DotPlus(u: Vector, w: Vector, v: Vector)
    requires |u| == |w| == |v|
    ensures Dot(Plus(u, w), v) == Add(Dot(u, v), Dot(w, v))
  {
    hide Add, Mul;
    var n := |u| - 1;
    if n < 0 {
      AddZero(ZERO);
    } else {
      DotPlus(u[..n], w[..n], v[..n]);
      assert Plus(u, w)[..n] == Plus(u[..n], w[..n]);
      MulAddLeft(u[n], w[n], v[n]);
      AddSwap(Dot(u[..n], v[..n]), Dot(w[..n], v[..n]), Mul(u[n], v[n]), Mul(w[n], v[n]));
    }
  }

  lemma {:induction false} DotScaled(s: Byte, u: Vector, v: Vector)
    requires |u| == |v|
    ensures Dot(Scaled(s, u), v) == Mul(s, Dot(u, v))
  {
    hide Add, Mul;
    var n := |u| - 1;
    if n < 0 {
      MulZero(s);
    } else {
      DotScaled(s, u[..n], v[..n]);
      assert Scaled(s, u)[..n] == Scaled(s, u[..n]);
      MulAssoc(s, u[n], v[n]);
      MulAdd(s, Dot(u[..n], v[..n]), Mul(u[n], v[n]));
    }
  }

  lemma {:induction false} DotZeros(v: Vector)
    ensures Dot(Zeros(|v|), v) == ZERO
  {
    hide Add, Mul;
    var n := |v| - 1;
    if n >= 0 {
      DotZeros(v[..n]);
      assert Zeros(|v|)[..n] == Zeros(n);
      MulZero(v[n]);
      AddZero(ZERO);
    }
  }

  /** All but one of the terms vanish. */
  lemma {:induction false} DotSingle(u: Vector, v: Vector, j: nat)
    requires |u| == |v| && j < |u|
    requires forall i :: 0 <= i < |u| && i != j ==> u[i] == ZERO || v[i] == ZERO
    ensures Dot(u, v) == Mul(u[j], v[j])
  {
    hide Add, Mul;
    var n := |u| - 1;
    MulZero(u[n]);
    MulZero(v[n]);
    AddZero(Mul(u[j], v[j]));
    if j == n {
      DotNone(u[..n], v[..n]);
    } else {
      DotSingle(u[..n], v[..n], j);
    }
  }

  lemma {:induction false} DotNone(u: Vector, v: Vector)
    requires |u| == |v|
    requires forall i :: 0 <= i < |u| ==> u[i] == ZERO || v[i] == ZERO
    ensures Dot(u, v) == ZERO
  {
    hide Add, Mul;
    var n := |u| - 1;
    if n >= 0 {
      DotNone(u[..n], v[..n]);
      MulZero(u[n]);
      MulZero(v[n]);
      AddZero(ZERO);
    }
  }

  lemma DotUnit(n: nat, r: nat, v: Vector)
    requires |v| == n && r < n
    ensures Dot(Unit(n, r), v) == v[r]
  {
    hide Add, Mul;
    DotSingle(Unit(n, r), v, r);
    MulComm(ONE, v[r]);
    MulOne(v[r]);
  }

  // ---- combinations of rows ----------------------------------------------------

  lemma {:induction false} CombinePlus(u: Vector, w: Vector, m: Matrix, cols: nat)
    requires |u| == |w| && IsMatrix(m, |u|, cols)
    ensures Combine(Plus(u, w), m, cols) == Plus(Combine(u, m, cols), Combine(w, m, cols))
  {
    hide Add, Mul;
    var n := |u| - 1;
    if n < 0 {
      AddZero(ZERO);
    } else {
      CombinePlus(u[..n], w[..n], m[..n], cols);
      assert Plus(u, w)[..n] == Plus(u[..n], w[..n]);
      var cu, cw := Combine(u[..n], m[..n], cols), Combine(w[..n], m[..n], cols);
      forall i | 0 <= i < cols
        ensures Add(Add(cu[i], cw[i]), Mul(Add(u[n], w[n]), m[n][i])) ==
                Add(Add(cu[i], Mul(u[n], m[n][i])), Add(cw[i], Mul(w[n], m[n][i])))
      {
        MulAddLeft(u[n], w[n], m[n][i]);
        AddSwap(cu[i], cw[i], Mul(u[n], m[n][i]), Mul(w[n], m[n][i]));
      }
    }
  }

  lemma {:induction false} CombineScaled(s: Byte, u: Vector, m: Matrix, cols: nat)
    requires IsMatrix(m, |u|, cols)
    ensures Combine(Scaled(s, u), m, cols) == Scaled(s, Combine(u, m, cols))
  {
    hide Add, Mul;
    var n := |u| - 1;
    if n < 0 {
      MulZero(s);
    } else {
      CombineScaled(s, u[..n], m[..n], cols);
      assert Scaled(s, u)[..n] == Scaled(s, u[..n]);
      var cu := Combine(u[..n], m[..n], cols);
      forall i | 0 <= i < cols
        ensures Add(Mul(s, cu[i]), Mul(Mul(s, u[n]), m[n][i])) == Mul(s, Add(cu[i], Mul(u[n], m[n][i])))
      {
        MulAssoc(s, u[n], m[n][i]);
        MulAdd(s, cu[i], Mul(u[n], m[n][i]));
      }
    }
  }

  lemma {:induction false} CombineZeros(m: Matrix, cols: nat)
    requires IsMatrix(m, |m|, cols)
    ensures Combine(Zeros(|m|), m, cols) == Zeros(cols)
  {
    hide Add, Mul;
    var n := |m| - 1;
    if n >= 0 {
      CombineZeros(m[..n], cols);
      assert Zeros(|m|)[..n] == Zeros(n);
      forall i | 0 <= i < cols
        ensures Add(ZERO, Mul(ZERO, m[n][i])) == ZERO
      {
        MulZero(m[n][i]);
        AddZero(ZERO);
      }
    }
  }

  lemma {:induction false} CombineUnit(m: Matrix, cols: nat, r: nat)
    requires IsMatrix(m, |m|, cols) && r < |m|
    ensures Combine(Unit(|m|, r), m, cols) == m[r]
  {
    hide Add, Mul;
    var n := |m| - 1;
    assert Unit(|m|, r)[..n] == if r < n then Unit(n, r) else Zeros(n);
    if r < n {
      CombineUnit(m[..n], cols, r);
    } else {
      CombineZeros(m[..n], cols);
    }
    forall i | 0 <= i < cols
      ensures Add(m[r][i], Mul(ZERO, m[n][i])) == m[r][i] && Add(ZERO, Mul(ONE, m[n][i])) == m[n][i]
    {
      MulZero(m[n][i]);
      MulComm(ONE, m[n][i]);
      MulOne(m[n][i]);
      AddZero(m[r][i]);
      AddZero(m[n][i]);
    }
  }

  /** Combining the rows and then applying them is applying them and then combining the results. */
  lemma {:induction false} DotCombine(u: Vector, m: Matrix, v: Vector)
    requires IsMatrix(m, |u|, |v|)
    ensures Dot(Combine(u, m, |v|), v) == Dot(u, Image(m, v))
  {
    hide Add, Mul;
    var n := |u| - 1;
    if n < 0 {
      DotZeros(v);
    } else {
      DotCombine(u[..n], m[..n], v);
      assert Image(m, v)[..n] == Image(m[..n], v);
      DotPlus(Combine(u[..n], m[..n], |v|), Scaled(u[n], m[n]), v);
      DotScaled(u[n], m[n], v);
    }
  }
}
