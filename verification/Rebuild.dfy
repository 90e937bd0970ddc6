/** The decoder of chunk/erasure.c: any k pieces held rebuild the buffer. */
module Rebuild {
  import opened Gf256
  import opened Linear
  import opened Generator
  import opened GfTables
  import opened GaussJordan
  import opened Erasure

  /** The indices of the pieces held among the first `n`. */
  function HeldRows(pieces: seq<Piece>, n: nat): (rows: seq<nat>)
    requires n <= |pieces|
  {
    if n == 0 then []
    else HeldRows(pieces, n - 1) + if pieces[n - 1].Held? then [n - 1] else []
  }

  lemma {:induction false} HeldRowsAscend(pieces: seq<Piece>, n: nat)
    requires n <= |pieces|
    ensures Ascending(HeldRows(pieces, n))
    ensures forall i :: 0 <= i < |HeldRows(pieces, n)| ==> HeldRows(pieces, n)[i] < n && pieces[HeldRows(pieces, n)[i]].Held?
  {
    if n > 0 {
      HeldRowsAscend(pieces, n - 1);
    }
  }

  lemma {:induction false} HeldRowsPrefix(pieces: seq<Piece>, m: nat, n: nat)
    requires m <= n <= |pieces|
    ensures HeldRows(pieces, m) <= HeldRows(pieces, n)
  {
    if m < n {
      HeldRowsPrefix(pieces, m, n - 1);
    }
  }

  /** The pieces held are pieces of `data`. */
  ghost predicate PiecesOf(pieces: seq<Piece>, k: nat, data: seq<Byte>) {
    |pieces| <= 256 &&
    forall i :: 0 <= i < |pieces| && pieces[i].Held? ==>
      |pieces[i].bytes| == PieceLen(|data|, k) &&
      forall b :: 0 <= b < |pieces[i].bytes| ==> pieces[i].bytes[b] == CodeByte(k, data, i, b)
  }

  ghost function GeneratorRows(k: nat, rows: seq<nat>): (m: Matrix)
    requires forall i :: 0 <= i < |rows| ==> rows[i] < 256
    ensures IsMatrix(m, |rows|, k)
  {
    seq(|rows|, i requires 0 <= i < |rows| => GeneratorRow(k, rows[i]))
  }

  /** The elimination always finds its pivots on generator rows. */
  lemma RowsNonsingular(k: nat, rows: seq<nat>)
    requires |rows| == k && Ascending(rows) && forall i :: 0 <= i < k ==> rows[i] < 256
    ensures Nonsingular(GeneratorRows(k, rows))
  {
    hide Dot, GeneratorRow;
    var g := GeneratorRows(k, rows);
    forall v, c | Annihilates(g, v) && |v| == k && 0 <= c < k
      ensures v[c] == ZERO
    {
      assert forall i :: 0 <= i < k ==> g[i] == GeneratorRow(k, rows[i]);
      Independent(k, rows, v);
    }
  }

  /** Row `r` of the inverse over byte `b` of the pieces used is byte `b` of data piece `r`. */
  lemma RowRebuilds(k: nat, rows: seq<nat>, inverse: Vector, r: nat, data: seq<Byte>, b: nat, column: Vector)
    requires |rows| == k == |inverse| == |column| && r < k && forall i :: 0 <= i < k ==> rows[i] < 256
    requires Combine(inverse, GeneratorRows(k, rows), k) == Unit(k, r)
    requires forall i :: 0 <= i < k ==> column[i] == CodeByte(k, data, rows[i], b)
    ensures Dot(inverse, column) == DataByte(k, data, r, b)
  {
    hide Dot, Combine, GeneratorRow;
    var g, v := GeneratorRows(k, rows), Column(k, data, b);
    DotCombine(inverse, g, v);
    assert column == Image(g, v);
    DotUnit(k, r, v);
  }

  /** The first `k` pieces held among the first `n`. */
  method ChooseRows(k: nat, pieces: seq<Piece>, n: nat) returns (rows: seq<nat>)
    requires n <= |pieces|
    ensures |rows| <= k && rows <= HeldRows(pieces, n)
    ensures |rows| < k ==> rows == HeldRows(pieces, n)
  {
    rows := [];
    var i := 0;
    while i < n && |rows| < k
      invariant 0 <= i <= n && |rows| <= k && rows == HeldRows(pieces, i)
    {
      if pieces[i].Held? {
        rows := rows + [i];
      }
      i := i + 1;
    }
    HeldRowsPrefix(pieces, i, n);
  }

  lemma {:induction false} HeldRowsFew(pieces: seq<Piece>, n: nat)
    requires n <= |pieces|
    ensures |HeldRows(pieces, n)| <= n
  {
    if n > 0 {
      HeldRowsFew(pieces, n - 1);
    }
  }

  method FillMatrices(t: Tables, k: nat, rows: seq<nat>) returns (a: array2<Byte>, inv: array2<Byte>)
    requires t.Valid() && t.ready && |rows| == k && forall i :: 0 <= i < k ==> rows[i] < 256
    ensures fresh(a) && fresh(inv) && a != inv
    ensures a.Length0 == a.Length1 == inv.Length0 == inv.Length1 == k
    ensures Rows(a) == GeneratorRows(k, rows)
    ensures forall r :: 0 <= r < k ==> Rows(inv)[r] == Unit(k, r)
  {
    hide GeneratorRow;
    a := new Byte[k, k]((r, c) => ZERO);
    inv := new Byte[k, k]((r, c) => if r == c then ONE else ZERO);
    for r := 0 to k
      invariant forall q, c :: 0 <= q < r && 0 <= c < k ==> a[q, c] == GeneratorRow(k, rows[q])[c]
      invariant forall q, c :: 0 <= q < k && 0 <= c < k ==> inv[q, c] == if q == c then ONE else ZERO
    {
      for c := 0 to k
        invariant forall q, d :: 0 <= q < r && 0 <= d < k ==> a[q, d] == GeneratorRow(k, rows[q])[d]
        invariant forall d :: 0 <= d < c ==> a[r, d] == GeneratorRow(k, rows[r])[d]
        invariant forall q, d :: 0 <= q < k && 0 <= d < k ==> inv[q, d] == if q == d then ONE else ZERO
      {
        var g := GeneratorEntry(t, k, rows[r], c);
        a[r, c] := g;
      }
    }
    forall r | 0 <= r < k
      ensures Rows(a)[r] == GeneratorRow(k, rows[r]) && Rows(inv)[r] == Unit(k, r)
    {
    }
  }

  /** Byte `b` of each of the pieces used. */
  function Bytes(pieces: seq<Piece>, rows: seq<nat>, b: nat): (v: Vector)
    requires forall i :: 0 <= i < |rows| ==> rows[i] < |pieces| && pieces[rows[i]].Held? && b < |pieces[rows[i]].bytes|
    ensures |v| == |rows|
  {
    seq(|rows|, i requires 0 <= i < |rows| => pieces[rows[i]].bytes[b])
  }

  method RebuildByte(t: Tables, inv: array2<Byte>, k: nat, r: nat, pieces: seq<Piece>, rows: seq<nat>, b: nat)
    returns (v: Byte)
    requires t.Valid() && t.ready && inv.Length0 == inv.Length1 == k == |rows| && r < k
    requires forall i :: 0 <= i < k ==> rows[i] < |pieces| && pieces[rows[i]].Held? && b < |pieces[rows[i]].bytes|
    ensures v == Dot(Rows(inv)[r], Bytes(pieces, rows, b))
  {
    hide Add, Mul;
    ghost var u, w := Rows(inv)[r], Bytes(pieces, rows, b);
    v := ZERO;
    for i := 0 to k
      invariant v == Dot(u[..i], w[..i])
    {
      var p := t.Mul(inv[r, i], pieces[rows[i]].bytes[b]);
      DotPrefix(u, w, i);
      v := Add(v, p);
    }
    assert u[..k] == u && w[..k] == w;
  }

  /** Writes data piece `r`, as far as `len` reaches. */
  method RebuildPiece(t: Tables, inv: array2<Byte>, k: nat, r: nat, pieces: seq<Piece>, rows: seq<nat>,
                      out: array<Byte>, done: nat, want: nat, ghost data: seq<Byte>)
    requires t.Valid() && t.ready && out != t.exp
    requires inv.Length0 == inv.Length1 == k == |rows| && r < k
    requires forall i :: 0 <= i < k ==> rows[i] < |pieces| && rows[i] < 256 && pieces[rows[i]].Held? &&
                                        want <= |pieces[rows[i]].bytes|
    requires Combine(Rows(inv)[r], GeneratorRows(k, rows), k) == Unit(k, r)
    requires done + want <= out.Length
    modifies out
    ensures forall x :: 0 <= x < out.Length && !(done <= x < done + want) ==> out[x] == old(out[x])
    ensures PiecesOf(pieces, k, data) ==> forall b :: 0 <= b < want ==> out[done + b] == DataByte(k, data, r, b)
  {
    hide Dot, Combine, GeneratorRows, DataByte, CodeByte;
    ghost var row := Rows(inv)[r];
    for b := 0 to want
      invariant Rows(inv)[r] == row && t.Valid() && t.ready
      invariant forall x :: 0 <= x < out.Length && !(done <= x < done + b) ==> out[x] == old(out[x])
      invariant PiecesOf(pieces, k, data) ==> forall y :: 0 <= y < b ==> out[done + y] == DataByte(k, data, r, y)
    {
      var v := RebuildByte(t, inv, k, r, pieces, rows, b);
      if PiecesOf(pieces, k, data) {
        RowRebuilds(k, rows, row, r, data, b, Bytes(pieces, rows, b));
      }
      out[done + b] := v;
    }
  }

  /** Rebuilds `len` bytes into `out` from the pieces held. It refuses a bad shape and fewer than k pieces; otherwise, whatever
      buffer the pieces held are pieces of, that buffer is what it writes. Of a shape whose sum wraps it looks at fewer than k. */
  method Decode(t: Tables, k: Unsigned, m: Unsigned, pieces: seq<Piece>, len: nat, out: array<Byte>, ghost data: seq<Byte>)
    returns (r: Outcome)
    requires t.Valid() && out != t.exp
    requires ShapeOk(k, m, len) ==>
               |pieces| == k as nat + m as nat && len <= out.Length &&
               forall i :: 0 <= i < |pieces| && pieces[i].Held? ==> |pieces[i].bytes| == PieceLen(len, k)
    modifies t, t.exp, t.log, out
    ensures t.Valid()
    ensures r == if !ShapeOk(k, m, len) then Malformed
                 else if !Documented(k, m, len) || |HeldRows(pieces, |pieces|)| < k then TooFew else Ok
    ensures forall x :: 0 <= x < out.Length && (r == Ok ==> len <= x) ==> out[x] == old(out[x])
    ensures r == Ok && |data| == len && PiecesOf(pieces, k, data) ==> out[..len] == data
  {
    SumIs(k, m);
    hide PieceLen, PiecesOf, Combine, Nonsingular, Sum, GeneratorRows, HeldRows;
    if !ShapeOk(k, m, len) {
      return Malformed;
    }
    var n := PieceLen(len, k);
    t.Init();
    var rows := ChooseRows(k, pieces, Sum(k, m));
    HeldRowsFew(pieces, Sum(k, m));
    if |rows| < k {
      return TooFew;
    }
    HeldRowsAscend(pieces, |pieces|);
    assert forall i :: 0 <= i < k ==> rows[i] == HeldRows(pieces, |pieces|)[i];
    var a, inv := FillMatrices(t, k, rows);
    var found := Invert(t, a, inv, k);
    RowsNonsingular(k, rows);
    if found {
      WriteOut(t, inv, k, pieces, rows, len, n, out, data);
    }
    r := if found then Ok else Malformed;
  }

  /** The first `done` bytes written are those of the buffer the pieces are pieces of. */
  ghost predicate Written(out: seq<Byte>, pieces: seq<Piece>, k: nat, len: nat, done: nat, data: seq<Byte>) {
    done <= len <= |out| &&
    (|data| == len && PiecesOf(pieces, k, data) ==> out[..done] == data[..done])
  }

  method WriteOut(t: Tables, inv: array2<Byte>, k: nat, pieces: seq<Piece>, rows: seq<nat>, len: nat, n: nat,
                  out: array<Byte>, ghost data: seq<Byte>)
    requires t.Valid() && t.ready && out != t.exp
    requires k > 0 && inv.Length0 == inv.Length1 == k == |rows| && n == PieceLen(len, k) && len <= out.Length
    requires forall i :: 0 <= i < k ==> rows[i] < |pieces| && rows[i] < 256 && pieces[rows[i]].Held? &&
                                        n <= |pieces[rows[i]].bytes|
    requires forall r :: 0 <= r < k ==> Combine(Rows(inv)[r], GeneratorRows(k, rows), k) == Unit(k, r)
    modifies out
    ensures forall x :: len <= x < out.Length ==> out[x] == old(out[x])
    ensures Written(out[..], pieces, k, len, len, data)
  {
    var r, done := 0, 0;
    LastStart(len, k);
    hide PieceLen, PiecesOf, Combine, GeneratorRows, Start, Written;
    NothingWritten(out[..], pieces, k, len, n, data);
    while r < k && done < len
      invariant 0 <= r <= k && done == (if Start(r, n) < len then Start(r, n) else len)
      invariant Rows(inv) == old(Rows(inv)) && t.Valid() && t.ready
      invariant forall x :: len <= x < out.Length ==> out[x] == old(out[x])
      invariant Written(out[..], pieces, k, len, done, data)
    {
      done := WritePiece(t, inv, k, r, pieces, rows, len, n, out, done, data);
      StartNext(r, n);
      r := r + 1;
    }
  }

  /** One data piece, written as far as the buffer reaches. */
  method WritePiece(t: Tables, inv: array2<Byte>, k: nat, r: nat, pieces: seq<Piece>, rows: seq<nat>, len: nat, n: nat,
                    out: array<Byte>, done: nat, ghost data: seq<Byte>)
    returns (next: nat)
    requires t.Valid() && t.ready && out != t.exp
    requires r < k && inv.Length0 == inv.Length1 == k == |rows| && n == PieceLen(len, k) && len <= out.Length
    requires forall i :: 0 <= i < k ==> rows[i] < |pieces| && rows[i] < 256 && pieces[rows[i]].Held? &&
                                        n <= |pieces[rows[i]].bytes|
    requires forall q :: 0 <= q < k ==> Combine(Rows(inv)[q], GeneratorRows(k, rows), k) == Unit(k, q)
    requires done == Start(r, n) < len && Written(out[..], pieces, k, len, done, data)
    modifies out
    ensures t.Valid() && t.ready && Rows(inv) == old(Rows(inv))
    ensures next == if done + n < len then done + n else len
    ensures forall x :: len <= x < out.Length ==> out[x] == old(out[x])
    ensures Written(out[..], pieces, k, len, next, data)
  {
    hide PieceLen, PiecesOf, Combine, GeneratorRows, Start, Written;
    var want := if len - done < n then len - done else n;
    ghost var before := out[..];
    RebuildPiece(t, inv, k, r, pieces, rows, out, done, want, data);
    WrittenStep(before, out[..], pieces, k, len, n, r, done, want, data);
    next := done + want;
  }

  lemma LastStart(len: nat, k: nat)
    requires k > 0
    ensures Start(k, PieceLen(len, k)) >= len
  {
  }

  lemma NothingWritten(out: seq<Byte>, pieces: seq<Piece>, k: nat, len: nat, n: nat, data: seq<Byte>)
    requires len <= |out|
    ensures Start(0, n) == 0 && Written(out, pieces, k, len, 0, data)
  {
    hide PiecesOf;
  }

  lemma StartNext(r: nat, n: nat)
    ensures Start(r + 1, n) == Start(r, n) + n
  {
  }

  lemma WrittenStep(before: seq<Byte>, after: seq<Byte>, pieces: seq<Piece>, k: nat, len: nat, n: nat, r: nat,
                    done: nat, want: nat, data: seq<Byte>)
    requires |after| == |before| && Written(before, pieces, k, len, done, data) && done + want <= len
    requires n == PieceLen(len, k) && done == Start(r, n)
    requires forall x :: 0 <= x < |before| && !(done <= x < done + want) ==> after[x] == before[x]
    requires PiecesOf(pieces, k, data) ==> forall b :: 0 <= b < want ==> after[done + b] == DataByte(k, data, r, b)
    ensures Written(after, pieces, k, len, done + want, data)
  {
    hide PiecesOf, PieceLen;
    if |data| == len && PiecesOf(pieces, k, data) {
      forall x | 0 <= x < done + want
        ensures after[x] == data[x]
      {
        if x < done {
          assert before[..done][x] == data[..done][x];
        } else {
          assert after[done + (x - done)] == DataByte(k, data, r, x - done);
        }
      }
    }
  }

  /** Encodes, loses every piece `keep` does not name, and rebuilds: whenever at least k pieces are kept the
      buffer comes back exactly. */
  method RoundTrip(k: nat, m: nat, data: seq<Byte>, keep: seq<bool>) returns (r: Outcome, rebuilt: seq<Byte>)
    requires Documented(k, m, |data|) && |keep| == k + m
    ensures r == if |Kept(keep, |keep|)| < k then TooFew else Ok
    ensures r == Ok ==> rebuilt == data
  {
    hide PieceLen;
    var t := new Tables();
    var n := PieceLen(|data|, k);
    var buffer := new Byte[Start(k + m, n)](_ => ZERO);
    var e := Encode(t, k, m, data, buffer);
    var pieces := Cut(buffer[..], keep, n);
    PiecesOfEncoding(buffer[..], pieces, keep, k, data, n);
    var out := new Byte[|data|](_ => ZERO);
    r := Decode(t, k, m, pieces, |data|, out, data);
    rebuilt := out[..];
  }

  /** The indices kept among the first `n`. */
  function Kept(keep: seq<bool>, n: nat): (rows: seq<nat>)
    requires n <= |keep|
  {
    if n == 0 then [] else Kept(keep, n - 1) + if keep[n - 1] then [n - 1] else []
  }

  /** The pieces of the buffer that are kept. */
  function Cut(buffer: seq<Byte>, keep: seq<bool>, n: nat): (pieces: seq<Piece>)
    requires Start(|keep|, n) <= |buffer|
    ensures |pieces| == |keep|
  {
    seq(|keep|, i requires 0 <= i < |keep| =>
      if keep[i] then StartOrder(i, |keep|, n); Held(buffer[Start(i, n)..Start(i, n) + n]) else Missing)
  }

  lemma PiecesOfEncoding(buffer: seq<Byte>, pieces: seq<Piece>, keep: seq<bool>, k: nat, data: seq<Byte>, n: nat)
    requires n == PieceLen(|data|, k) && Start(|keep|, n) <= |buffer| && pieces == Cut(buffer, keep, n)
    requires Laid(buffer, k, data, |keep|)
    ensures PiecesOf(pieces, k, data)
    ensures HeldRows(pieces, |pieces|) == Kept(keep, |keep|)
  {
    hide PieceLen, CodeByte, Start;
    forall i | 0 <= i < |keep| && keep[i]
      ensures |pieces[i].bytes| == n && forall b :: 0 <= b < n ==> pieces[i].bytes[b] == CodeByte(k, data, i, b)
    {
      assert PieceLaid(buffer, k, data, i, Start(i, n), n);
    }
    SameRows(pieces, keep, |keep|);
  }

  lemma {:induction false} SameRows(pieces: seq<Piece>, keep: seq<bool>, n: nat)
    requires n <= |pieces| == |keep| && forall i :: 0 <= i < |keep| ==> (pieces[i].Held? <==> keep[i])
    ensures HeldRows(pieces, n) == Kept(keep, n)
  {
    if n > 0 {
      SameRows(pieces, keep, n - 1);
    }
  }
}
