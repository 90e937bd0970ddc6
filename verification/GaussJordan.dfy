/** The in-place inversion inside the decoder: Gauss-Jordan elimination on a matrix `a`, the same row
    operations applied to `inv` beside it. */
module GaussJordan {
  import opened Gf256
  import opened Linear
  import opened GfTables

  ghost function RowOf(m: array2<Byte>, r: nat): (row: Vector)
    requires r < m.Length0
    reads m
    ensures |row| == m.Length1
  {
    seq(m.Length1, i requires 0 <= i < m.Length1 reads m => m[r, i])
  }

  ghost function Rows(m: array2<Byte>): (rows: Matrix)
    reads m
    ensures IsMatrix(rows, m.Length0, m.Length1)
    ensures forall r, i :: 0 <= r < m.Length0 && 0 <= i < m.Length1 ==> rows[r][i] == m[r, i]
  {
    seq(m.Length0, r requires 0 <= r < m.Length0 reads m => RowOf(m, r))
  }

  // ---- the row operations ------------------------------------------------------

  ghost function Swapped(m: Matrix, p: nat, c: nat): (r: Matrix)
    requires p < |m| && c < |m|
  {
    m[p := m[c]][c := m[p]]
  }

  ghost function RowScaled(m: Matrix, c: nat, s: Byte): (r: Matrix)
    requires c < |m|
  {
    m[c := Scaled(s, m[c])]
  }

  ghost function RowAdded(m: Matrix, r: nat, c: nat, f: Byte): (n: Matrix)
    requires r < |m| && c < |m| && |m[r]| == |m[c]|
  {
    m[r := Plus(m[r], Scaled(f, m[c]))]
  }

  method SwapRows(m: array2<Byte>, p: nat, c: nat)
    requires p < m.Length0 && c < m.Length0 && p != c
    modifies m
    ensures Rows(m) == Swapped(old(Rows(m)), p, c)
  {
    for i := 0 to m.Length1
      invariant forall r, j :: 0 <= r < m.Length0 && 0 <= j < m.Length1 ==>
                  m[r, j] == old(m[if j < i && r == p then c else if j < i && r == c then p else r, j])
    {
      var t := m[p, i];
      m[p, i] := m[c, i];
      m[c, i] := t;
    }
    assert forall r :: 0 <= r < m.Length0 ==> Rows(m)[r] == Swapped(old(Rows(m)), p, c)[r];
  }

  method ScaleRow(t: Tables, m: array2<Byte>, c: nat, s: Byte)
    requires t.Valid() && t.ready && c < m.Length0
    modifies m
    ensures Rows(m) == RowScaled(old(Rows(m)), c, s)
  {
    hide Mul;
    for i := 0 to m.Length1
      invariant t.Valid() && t.ready
      invariant forall r, j :: 0 <= r < m.Length0 && 0 <= j < m.Length1 ==>
                  m[r, j] == if j < i && r == c then Mul(s, old(m[r, j])) else old(m[r, j])
    {
      var v := t.Mul(m[c, i], s);
      MulComm(m[c, i], s);
      m[c, i] := v;
    }
    assert forall r :: 0 <= r < m.Length0 ==> Rows(m)[r] == RowScaled(old(Rows(m)), c, s)[r];
  }

  method AddRow(t: Tables, m: array2<Byte>, r: nat, c: nat, f: Byte)
    requires t.Valid() && t.ready && r < m.Length0 && c < m.Length0 && r != c
    modifies m
    ensures Rows(m) == RowAdded(old(Rows(m)), r, c, f)
  {
    hide Mul, Add;
    for i := 0 to m.Length1
      invariant t.Valid() && t.ready
      invariant forall q, j :: 0 <= q < m.Length0 && 0 <= j < m.Length1 ==>
                  m[q, j] == if j < i && q == r then Add(old(m[r, j]), Mul(f, old(m[c, j]))) else old(m[q, j])
    {
      var v := t.Mul(f, m[c, i]);
      m[r, i] := Add(m[r, i], v);
    }
    assert forall q :: 0 <= q < m.Length0 ==> Rows(m)[q] == RowAdded(old(Rows(m)), r, c, f)[q];
  }

  // ---- what every row operation keeps ------------------------------------------

  ghost predicate Annihilates(m: Matrix, v: Vector) {
    IsMatrix(m, |m|, |v|) && forall r :: 0 <= r < |m| ==> Dot(m[r], v) == ZERO
  }

  /** Each row of `a` is the combination of the rows of `a0` that `inv` says. */
  ghost predicate Tracks(a: Matrix, inv: Matrix, a0: Matrix, k: nat) {
    && IsMatrix(a, k, k) && IsMatrix(inv, k, k) && IsMatrix(a0, k, k)
    && forall r :: 0 <= r < k ==> a[r] == Combine(inv[r], a0, k)
  }

  /** Whatever `b` sends to zero, `a` does. */
  ghost predicate KernelWithin(b: Matrix, a: Matrix) {
    forall v :: Annihilates(b, v) ==> Annihilates(a, v)
  }

  lemma KernelTransitive(c: Matrix, b: Matrix, a: Matrix)
    requires KernelWithin(c, b) && KernelWithin(b, a)
    ensures KernelWithin(c, a)
  {
    hide Annihilates;
  }

  lemma SwapKernel(a: Matrix, k: nat, p: nat, c: nat)
    requires IsMatrix(a, k, k) && p < k && c < k
    ensures KernelWithin(Swapped(a, p, c), a)
  {
    hide Dot;
    var b := Swapped(a, p, c);
    forall v | Annihilates(b, v)
      ensures Annihilates(a, v)
    {
      assert k > 0 && |b[0]| == |v|;
      forall r | 0 <= r < k
        ensures Dot(a[r], v) == ZERO
      {
        assert a[r] == b[if r == p then c else if r == c then p else r];
      }
    }
  }

  lemma ScaleKernel(a: Matrix, k: nat, c: nat, s: Byte)
    requires IsMatrix(a, k, k) && c < k && s != ZERO
    ensures KernelWithin(RowScaled(a, c, s), a)
  {
    hide Dot, Mul, Scaled;
    var b := RowScaled(a, c, s);
    forall v | Annihilates(b, v)
      ensures Annihilates(a, v)
    {
      assert |Scaled(s, a[c])| == k by { ScaledLength(s, a[c]); }
      assert Dot(b[c], v) == ZERO;
      DotScaled(s, a[c], v);
      MulNonzero(s, Dot(a[c], v));
      assert forall r :: 0 <= r < k && r != c ==> a[r] == b[r];
    }
  }

  lemma ScaledLength(s: Byte, u: Vector)
    ensures |Scaled(s, u)| == |u|
  {
  }

  lemma AddKernel(a: Matrix, k: nat, r: nat, c: nat, f: Byte)
    requires IsMatrix(a, k, k) && r < k && c < k && r != c
    ensures KernelWithin(RowAdded(a, r, c, f), a)
  {
    hide Dot, Mul, Add;
    var b := RowAdded(a, r, c, f);
    forall v | Annihilates(b, v)
      ensures Annihilates(a, v)
    {
      assert Dot(b[r], v) == ZERO && Dot(b[c], v) == ZERO && b[c] == a[c];
      DotScaled(f, a[c], v);
      DotPlus(a[r], Scaled(f, a[c]), v);
      MulZero(f);
      AddZero(Dot(a[r], v));
      assert forall q :: 0 <= q < k && q != r ==> a[q] == b[q];
    }
  }

  lemma SwapTracks(a: Matrix, inv: Matrix, a0: Matrix, k: nat, p: nat, c: nat)
    requires Tracks(a, inv, a0, k) && p < k && c < k
    ensures Tracks(Swapped(a, p, c), Swapped(inv, p, c), a0, k)
  {
    hide Combine;
  }

  lemma ScaleTracks(a: Matrix, inv: Matrix, a0: Matrix, k: nat, c: nat, s: Byte)
    requires Tracks(a, inv, a0, k) && c < k
    ensures Tracks(RowScaled(a, c, s), RowScaled(inv, c, s), a0, k)
  {
    hide Combine, Mul;
    CombineScaled(s, inv[c], a0, k);
  }

  lemma AddTracks(a: Matrix, inv: Matrix, a0: Matrix, k: nat, r: nat, c: nat, f: Byte)
    requires Tracks(a, inv, a0, k) && r < k && c < k && r != c
    ensures Tracks(RowAdded(a, r, c, f), RowAdded(inv, r, c, f), a0, k)
  {
    hide Combine, Mul, Add;
    CombineScaled(f, inv[c], a0, k);
    CombinePlus(inv[r], Scaled(f, inv[c]), a0, k);
  }

  /** The first `c` columns are those of the identity. */
  ghost predicate UnitColumns(a: Matrix, c: nat) {
    forall r, j :: 0 <= r < |a| && 0 <= j < c && j < |a[r]| ==> a[r][j] == if r == j then ONE else ZERO
  }

  // ---- no pivot means dependent columns -----------------------------------------

  /** The vector that shows it: column `c` is the sum of the earlier columns its own entries name. */
  ghost function Dependency(a: Matrix, k: nat, c: nat): (v: Vector)
    requires IsMatrix(a, k, k) && c < k
    ensures |v| == k
  {
    seq(k, j requires 0 <= j < k => if j < c then a[j][c] else if j == c then ONE else ZERO)
  }

  lemma {:induction false} DependencyPrefix(a: Matrix, k: nat, c: nat, r: nat, n: nat)
    requires IsMatrix(a, k, k) && c < k && r < k && n <= k
    requires UnitColumns(a, c) && (c <= r ==> a[r][c] == ZERO)
    ensures Dot(a[r][..n], Dependency(a, k, c)[..n]) == if r < n <= c then a[r][c] else ZERO
  {
    hide Mul, Add;
    var v := Dependency(a, k, c);
    if n > 0 {
      DependencyPrefix(a, k, c, r, n - 1);
      assert a[r][..n][..n - 1] == a[r][..n - 1] && v[..n][..n - 1] == v[..n - 1];
      MulZero(a[r][n - 1]);
      MulZero(v[n - 1]);
      MulOne(a[r][n - 1]);
      MulComm(ONE, v[n - 1]);
      MulOne(v[n - 1]);
      AddZero(a[r][c]);
      AddZero(ZERO);
      AddSelf(a[r][c], a[r][c]);
    }
  }

  lemma NoPivot(a: Matrix, k: nat, c: nat)
    requires IsMatrix(a, k, k) && c < k && UnitColumns(a, c)
    requires forall r :: c <= r < k ==> a[r][c] == ZERO
    ensures Annihilates(a, Dependency(a, k, c))
    ensures Dependency(a, k, c)[c] != ZERO
  {
    hide Dot;
    var v := Dependency(a, k, c);
    forall r | 0 <= r < k
      ensures Dot(a[r], v) == ZERO
    {
      DependencyPrefix(a, k, c, r, k);
      assert a[r][..k] == a[r] && v[..k] == v;
    }
  }

  /** No vector but zero is sent to zero. */
  ghost predicate Nonsingular(a0: Matrix) {
    forall v, c :: Annihilates(a0, v) && |v| == |a0| && 0 <= c < |v| ==> v[c] == ZERO
  }

  // ---- the elimination -----------------------------------------------------------

  /** What the elimination keeps: `a0` the matrix it began with. */
  ghost predicate Reduces(a: Matrix, inv: Matrix, a0: Matrix, k: nat) {
    Tracks(a, inv, a0, k) && KernelWithin(a, a0)
  }

  lemma UnitAfterSwap(a: Matrix, k: nat, p: nat, c: nat)
    requires IsMatrix(a, k, k) && UnitColumns(a, c) && c <= p < k
    ensures UnitColumns(Swapped(a, p, c), c)
  {
  }

  lemma UnitAfterScale(a: Matrix, k: nat, c: nat, s: Byte)
    requires IsMatrix(a, k, k) && UnitColumns(a, c) && c < k
    ensures UnitColumns(RowScaled(a, c, s), c)
    ensures RowScaled(a, c, s)[c][c] == Mul(s, a[c][c])
  {
    hide Mul;
    MulZero(s);
  }

  lemma UnitAfterAdd(a: Matrix, k: nat, r: nat, c: nat)
    requires IsMatrix(a, k, k) && UnitColumns(a, c) && r < k && c < k && r != c && a[c][c] == ONE
    ensures UnitColumns(RowAdded(a, r, c, a[r][c]), c)
    ensures RowAdded(a, r, c, a[r][c])[r][c] == ZERO
  {
    hide Mul, Add;
    var f := a[r][c];
    MulZero(f);
    MulOne(f);
    AddSelf(f, f);
    AddZero(ZERO);
    AddZero(ONE);
  }

  method Swap(a: array2<Byte>, inv: array2<Byte>, k: nat, p: nat, c: nat, ghost a0: Matrix)
    requires a != inv && a.Length0 == a.Length1 == inv.Length0 == inv.Length1 == k
    requires c <= p < k && Reduces(Rows(a), Rows(inv), a0, k) && UnitColumns(Rows(a), c)
    modifies a, inv
    ensures Reduces(Rows(a), Rows(inv), a0, k) && UnitColumns(Rows(a), c)
    ensures a[c, c] == old(a[p, c])
  {
    hide KernelWithin, Tracks, UnitColumns;
    if p != c {
      ghost var b := Rows(a);
      SwapTracks(b, Rows(inv), a0, k, p, c);
      SwapKernel(b, k, p, c);
      KernelTransitive(Swapped(b, p, c), b, a0);
      UnitAfterSwap(b, k, p, c);
      SwapRows(a, p, c);
      assert Rows(a)[c] == b[p];
      SwapRows(inv, p, c);
    }
  }

  method Normalise(t: Tables, a: array2<Byte>, inv: array2<Byte>, k: nat, c: nat, ghost a0: Matrix)
    requires t.Valid() && t.ready
    requires a != inv && a.Length0 == a.Length1 == inv.Length0 == inv.Length1 == k
    requires c < k && Reduces(Rows(a), Rows(inv), a0, k) && UnitColumns(Rows(a), c) && a[c, c] != ZERO
    modifies a, inv
    ensures Reduces(Rows(a), Rows(inv), a0, k) && UnitColumns(Rows(a), c) && a[c, c] == ONE
  {
    hide KernelWithin, Tracks, UnitColumns, Mul, Inv, Scaled, Exp;
    var scale := t.Inverse(a[c, c]);
    ghost var b := Rows(a);
    ScaleTracks(b, Rows(inv), a0, k, c, scale);
    ScaleKernel(b, k, c, scale);
    KernelTransitive(RowScaled(b, c, scale), b, a0);
    UnitAfterScale(b, k, c, scale);
    MulInv(b[c][c]);
    MulComm(scale, b[c][c]);
    ScaleRow(t, a, c, scale);
    assert Rows(a)[c][c] == Mul(scale, b[c][c]);
    ScaleRow(t, inv, c, scale);
  }

  method Eliminate(t: Tables, a: array2<Byte>, inv: array2<Byte>, k: nat, r: nat, c: nat, ghost a0: Matrix)
    requires t.Valid() && t.ready
    requires a != inv && a.Length0 == a.Length1 == inv.Length0 == inv.Length1 == k
    requires r < k && c < k && Reduces(Rows(a), Rows(inv), a0, k) && UnitColumns(Rows(a), c) && a[c, c] == ONE
    modifies a, inv
    ensures Reduces(Rows(a), Rows(inv), a0, k) && UnitColumns(Rows(a), c)
    ensures forall q :: 0 <= q < k && q != r ==> a[q, c] == old(a[q, c])
    ensures a[r, c] == if r == c then ONE else ZERO
  {
    hide KernelWithin, Tracks, UnitColumns;
    var f := a[r, c];
    if r == c || f == ZERO {
      return;
    }
    ghost var b := Rows(a);
    AddTracks(b, Rows(inv), a0, k, r, c, f);
    AddKernel(b, k, r, c, f);
    KernelTransitive(RowAdded(b, r, c, f), b, a0);
    UnitAfterAdd(b, k, r, c);
    AddRow(t, a, r, c, f);
    assert Rows(a)[r][c] == ZERO && forall q :: 0 <= q < k && q != r ==> Rows(a)[q][c] == b[q][c];
    AddRow(t, inv, r, c, f);
  }

  /** Makes column `c` a unit column, its pivot found at row `p`. */
  method ClearColumn(t: Tables, a: array2<Byte>, inv: array2<Byte>, k: nat, p: nat, c: nat, ghost a0: Matrix)
    requires t.Valid() && t.ready
    requires a != inv && a.Length0 == a.Length1 == inv.Length0 == inv.Length1 == k
    requires c <= p < k && Reduces(Rows(a), Rows(inv), a0, k) && UnitColumns(Rows(a), c) && a[p, c] != ZERO
    modifies a, inv
    ensures Reduces(Rows(a), Rows(inv), a0, k) && UnitColumns(Rows(a), c + 1)
  {
    hide Reduces;
    Swap(a, inv, k, p, c, a0);
    Normalise(t, a, inv, k, c, a0);
    for r := 0 to k
      invariant Reduces(Rows(a), Rows(inv), a0, k) && UnitColumns(Rows(a), c) && a[c, c] == ONE
      invariant forall q :: 0 <= q < r ==> a[q, c] == if q == c then ONE else ZERO
    {
      hide UnitColumns;
      Eliminate(t, a, inv, k, r, c, a0);
    }
  }

  method FindPivot(a: array2<Byte>, k: nat, c: nat) returns (p: nat)
    requires a.Length0 == a.Length1 == k && c < k
    ensures c <= p <= k && (p < k ==> a[p, c] != ZERO)
    ensures p == k ==> forall r :: c <= r < k ==> a[r, c] == ZERO
  {
    p := c;
    while p < k && a[p, c] == ZERO
      invariant c <= p <= k && forall r :: c <= r < p ==> a[r, c] == ZERO
    {
      p := p + 1;
    }
  }

  /** Inverts `a`, or reports that a column had no pivot -- which a matrix that sends only zero to zero
      never does. On success each row of `inv` combines the original rows of `a` to a unit row. */
  method Invert(t: Tables, a: array2<Byte>, inv: array2<Byte>, k: nat) returns (found: bool)
    requires t.Valid() && t.ready
    requires a != inv && a.Length0 == a.Length1 == inv.Length0 == inv.Length1 == k
    requires forall r :: 0 <= r < k ==> Rows(inv)[r] == Unit(k, r)
    modifies a, inv
    ensures found ==> forall r :: 0 <= r < k ==> Combine(Rows(inv)[r], old(Rows(a)), k) == Unit(k, r)
    ensures found <==> Nonsingular(old(Rows(a)))
  {
    ghost var a0 := Rows(a);
    hide Reduces, Combine, Nonsingular;
    StartReduces(a0, Rows(inv), k);
    for c := 0 to k
      invariant Reduces(Rows(a), Rows(inv), a0, k) && UnitColumns(Rows(a), c)
    {
      hide UnitColumns;
      var p := FindPivot(a, k, c);
      if p == k {
        NoPivotSingular(Rows(a), Rows(inv), a0, k, c);
        return false;
      }
      ClearColumn(t, a, inv, k, p, c, a0);
    }
    found := true;
    Inverted(Rows(a), Rows(inv), a0, k);
  }

  lemma StartReduces(a: Matrix, inv: Matrix, k: nat)
    requires IsMatrix(a, k, k) && IsMatrix(inv, k, k)
    requires forall r :: 0 <= r < k ==> inv[r] == Unit(k, r)
    ensures Reduces(a, inv, a, k)
  {
    hide Combine;
    forall r | 0 <= r < k
      ensures a[r] == Combine(inv[r], a, k)
    {
      CombineUnit(a, k, r);
    }
  }

  lemma NoPivotSingular(a: Matrix, inv: Matrix, a0: Matrix, k: nat, c: nat)
    requires Reduces(a, inv, a0, k)
    requires c < k && UnitColumns(a, c) && forall r :: c <= r < k ==> a[r][c] == ZERO
    ensures !Nonsingular(a0)
  {
    hide Annihilates, UnitColumns, Dependency;
    NoPivot(a, k, c);
    assert Annihilates(a0, Dependency(a, k, c));
  }

  lemma Inverted(a: Matrix, inv: Matrix, a0: Matrix, k: nat)
    requires Reduces(a, inv, a0, k) && UnitColumns(a, k)
    ensures forall r :: 0 <= r < k ==> Combine(inv[r], a0, k) == Unit(k, r)
    ensures Nonsingular(a0)
  {
    hide Dot, Combine, Mul, Add, KernelWithin;
    assert forall r :: 0 <= r < k ==> a[r] == Unit(k, r);
    forall v, c | Annihilates(a0, v) && |v| == k && 0 <= c < k
      ensures v[c] == ZERO
    {
      DotCombine(inv[c], a0, v);
      DotUnit(k, c, v);
      DotNone(inv[c], Image(a0, v));
    }
  }
}
