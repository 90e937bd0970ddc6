/** The erasure codec: a buffer as k data pieces and m parity pieces, any k of which rebuild it. */
module Erasure {
  import opened Gf256
  import opened Linear
  import opened Generator
  import opened GfTables

  const PIECES_MAX: nat := 32

  datatype Outcome = Ok | Malformed | TooFew

  datatype Piece = Missing | Held(bytes: seq<Byte>)

  /** One piece's length: len / k rounded up, 0 for a k or a len of 0. */
  function PieceLen(len: nat, k: nat): (n: nat)
    ensures k > 0 ==> k * n >= len
  {
    if k == 0 || len == 0 then 0
    else len / k + if len % k != 0 then 1 else 0
  }

  /** No shorter piece would do. */
  lemma PieceLenLeast(len: nat, k: nat, n: nat)
    requires k > 0
    ensures k * n >= len ==> PieceLen(len, k) <= n
  {
    if k * n >= len && len > 0 {
      var q := len / k;
      assert len == k * q + len % k;
      if n < q {
        OneMore(k, n, q);
      }
    }
  }

  lemma OneMore(k: nat, n: nat, q: nat)
    requires n < q
    ensures k * n + k <= k * q
  {
    assert k * (n + 1) <= k * q;
  }

  // ---- the shape, in the width it is checked ---------------------------------------

  const WORD: nat := 0x1_0000_0000

  /** The counts are 32-bit, and so is their sum. */
  type Unsigned = x: nat | x < WORD

  function Sum(k: Unsigned, m: Unsigned): (s: Unsigned) {
    (k as nat + m as nat) % WORD
  }

  predicate ShapeOk(k: Unsigned, m: Unsigned, len: nat) {
    k > 0 && m > 0 && Sum(k, m) <= PIECES_MAX && len > 0
  }

  /** The shape the header asks for. */
  predicate Documented(k: nat, m: nat, len: nat) {
    k > 0 && m > 0 && k + m <= PIECES_MAX && len > 0
  }

  /** The check is the documented one exactly when the sum does not wrap, or wraps past the limit too. */
  lemma ShapeIff(k: Unsigned, m: Unsigned, len: nat)
    requires k > 0 && m > 0 && len > 0
    ensures (ShapeOk(k, m, len) <==> Documented(k, m, len)) <==> k as nat + m as nat < WORD || Sum(k, m) > PIECES_MAX
  {
    SumIs(k, m);
  }

  lemma SumIs(k: Unsigned, m: Unsigned)
    ensures var s := k as nat + m as nat; Sum(k, m) as nat == if s < WORD then s else s - WORD
  {
  }

  /** A shape let through: four thousand million pieces and one, whose sum wraps to none at all. */
  lemma WrappedShape(len: nat)
    requires len > 0
    ensures ShapeOk(0xFFFF_FFFF, 1, len) && !Documented(0xFFFF_FFFF, 1, len)
  {
  }

  // ---- what the pieces are -------------------------------------------------------

  /** Byte `b` of data piece `c`: the buffer cut into k pieces, the end padded with zeros. */
  function DataByte(k: nat, data: seq<Byte>, c: nat, b: nat): (r: Byte) {
    var at := c * PieceLen(|data|, k) + b;
    if at < |data| then data[at] else ZERO
  }

  /** Byte `b` of every data piece. */
  function Column(k: nat, data: seq<Byte>, b: nat): (v: Vector)
    ensures |v| == k
  {
    seq(k, c requires 0 <= c < k => DataByte(k, data, c, b))
  }

  /** Byte `b` of piece `r`: row `r` of the generator over the data pieces. */
  ghost function CodeByte(k: nat, data: seq<Byte>, r: nat, b: nat): (v: Byte)
    requires r < 256
  {
    Dot(GeneratorRow(k, r), Column(k, data, b))
  }

  /** The code is systematic: a data piece is the data. */
  lemma Systematic(k: nat, data: seq<Byte>, r: nat, b: nat)
    requires r < k && r < 256
    ensures CodeByte(k, data, r, b) == DataByte(k, data, r, b)
  {
    hide Dot;
    DotUnit(k, r, Column(k, data, b));
  }

  // ---- encoding ------------------------------------------------------------------

  method GeneratorEntry(t: Tables, k: nat, r: nat, c: nat) returns (g: Byte)
    requires t.Valid() && t.ready && c < k
    ensures r < 256 ==> g == GeneratorRow(k, r)[c]
    ensures r < k ==> g == if r == c then ONE else ZERO
  {
    hide Inv, Add, OfNat;
    if r < k {
      g := if r == c then ONE else ZERO;
    } else {
      if r < 256 {
        NotAColumn(k, r);
        assert OfNat(c) == Columns(k)[c];
        AddSelf(OfNat(r), OfNat(c));
      }
      g := t.Inverse(Add(OfNat(r), OfNat(c)));
    }
  }

  /** Adds `coef` times the `n` bytes at `from` to the `n` bytes at `at`: another piece, or the same. */
  method AddMultiple(t: Tables, coef: Byte, pieces: array<Byte>, from: nat, at: nat, n: nat)
    requires t.Valid() && t.ready && pieces != t.exp && from + n <= pieces.Length && at + n <= pieces.Length
    requires from + n <= at || at + n <= from || from == at
    modifies pieces
    ensures forall x :: 0 <= x < pieces.Length && !(at <= x < at + n) ==> pieces[x] == old(pieces[x])
    ensures Multiplied(old(pieces[..]), pieces[..], coef, from, at, n)
  {
    hide Add, Mul;
    ghost var was := pieces[..];
    for b := 0 to n
      invariant t.Valid() && t.ready
      invariant forall x :: 0 <= x < pieces.Length && !(at <= x < at + b) ==> pieces[x] == was[x]
      invariant forall x :: at <= x < at + b ==> pieces[x] == Add(was[x], Mul(coef, was[x - at + from]))
    {
      assert pieces[from + b] == was[from + b] && pieces[at + b] == was[at + b];
      var p := t.Mul(coef, pieces[from + b]);
      pieces[at + b] := Add(pieces[at + b], p);
    }
  }

  /** The data pieces, laid end to end, are the buffer and its padding. */
  ghost predicate DataLaid(pieces: seq<Byte>, k: nat, data: seq<Byte>, n: nat) {
    n == PieceLen(|data|, k) && k * n <= |pieces| &&
    forall x :: 0 <= x < k * n ==> pieces[x] == if x < |data| then data[x] else ZERO
  }

  /** Piece `r`, laid at `at`, is row `r` of the generator over the data. */
  ghost predicate PieceLaid(pieces: seq<Byte>, k: nat, data: seq<Byte>, r: nat, at: nat, n: nat)
    requires r < 256
  {
    at + n <= |pieces| && forall b :: 0 <= b < n ==> pieces[at + b] == CodeByte(k, data, r, b)
  }

  lemma Offset(c: nat, k: nat, n: nat)
    requires c < k
    ensures c * n + n <= k * n
  {
    assert (c + 1) * n <= k * n;
  }

  lemma DataAt(pieces: seq<Byte>, k: nat, data: seq<Byte>, n: nat, c: nat, b: nat)
    requires DataLaid(pieces, k, data, n) && c < k && b < n
    ensures c * n + b < k * n && pieces[c * n + b] == Column(k, data, b)[c]
  {
    Offset(c, k, n);
  }

  lemma DotPrefix(u: Vector, v: Vector, c: nat)
    requires |u| == |v| && c < |u|
    ensures Dot(u[..c + 1], v[..c + 1]) == Add(Dot(u[..c], v[..c]), Mul(u[c], v[c]))
  {
    hide Add, Mul;
    assert u[..c + 1][..c] == u[..c] && v[..c + 1][..c] == v[..c];
  }

  /** The first `c` terms of every byte of the piece at `at`. */
  ghost predicate Partial(pieces: seq<Byte>, k: nat, data: seq<Byte>, r: nat, at: nat, n: nat, c: nat)
    requires r < 256
  {
    c <= k && at + n <= |pieces| &&
    forall b :: 0 <= b < n ==> pieces[at + b] == Dot(GeneratorRow(k, r)[..c], Column(k, data, b)[..c])
  }

  method ClearPiece(pieces: array<Byte>, at: nat, n: nat)
    requires at + n <= pieces.Length
    modifies pieces
    ensures forall x :: 0 <= x < pieces.Length ==>
              pieces[x] == if at <= x < at + n then ZERO else old(pieces[x])
  {
    for b := 0 to n
      invariant forall x :: 0 <= x < pieces.Length ==>
                  pieces[x] == if at <= x < at + b then ZERO else old(pieces[x])
    {
      pieces[at + b] := ZERO;
    }
  }

  /** The piece at `at` holds nothing but zeros. */
  ghost predicate Wiped(pieces: seq<Byte>, at: nat, n: nat) {
    at + n <= |pieces| && forall x :: at <= x < at + n ==> pieces[x] == ZERO
  }

  lemma Apart(c: nat, r: nat, n: nat)
    ensures Start(c, n) + n <= Start(r, n) || Start(r, n) + n <= Start(c, n) || Start(c, n) == Start(r, n)
  {
    if c < r {
      StartOrder(c, r, n);
    } else if r < c {
      StartOrder(r, c, n);
    }
  }

  lemma NothingAdded(coef: Byte)
    ensures Add(ZERO, Mul(coef, ZERO)) == ZERO
  {
    MulZero(coef);
    AddZero(ZERO);
  }

  lemma AddNothing(x: Byte)
    ensures Add(ZERO, Mul(ZERO, x)) == ZERO
  {
    MulZero(x);
    AddZero(ZERO);
  }

  /** One term of every byte of piece `r`: that of data piece `c`. */
  method AddTerm(t: Tables, pieces: array<Byte>, k: nat, r: nat, n: nat, c: nat, ghost data: seq<Byte>)
    requires t.Valid() && t.ready && pieces != t.exp && c < k
    requires Start(k, n) <= pieces.Length && Start(r, n) + n <= pieces.Length
    modifies pieces
    ensures forall x :: 0 <= x < pieces.Length && !(Start(r, n) <= x < Start(r, n) + n) ==> pieces[x] == old(pieces[x])
    ensures k <= r < 256 && DataLaid(old(pieces[..]), k, data, n) && Partial(old(pieces[..]), k, data, r, Start(r, n), n, c) ==>
              Partial(pieces[..], k, data, r, Start(r, n), n, c + 1)
    ensures r < k && Wiped(old(pieces[..]), Start(r, n), n) ==> Wiped(pieces[..], Start(r, n), n)
  {
    hide Add, Mul, GeneratorRow, Dot, Column, DataLaid, Partial, Start, Wiped, Multiplied;
    StartOrder(c, k, n);
    Apart(c, r, n);
    var coef := GeneratorEntry(t, k, r, c);
    ghost var was := pieces[..];
    AddMultiple(t, coef, pieces, Start(c, n), Start(r, n), n);
    ghost var now := pieces[..];
    if k <= r < 256 && DataLaid(was, k, data, n) && Partial(was, k, data, r, Start(r, n), n, c) {
      TermAdded(was, now, k, data, r, Start(r, n), n, c);
    }
    if r < k && Wiped(was, Start(r, n), n) {
      StaysWiped(was, now, coef, c, r, n);
    }
  }

  /** The bytes at `at` have `coef` times those at `from` added. */
  ghost predicate Multiplied(was: seq<Byte>, now: seq<Byte>, coef: Byte, from: nat, at: nat, n: nat) {
    |now| == |was| && from + n <= |was| && at + n <= |was| &&
    forall x :: at <= x < at + n ==> now[x] == Add(was[x], Mul(coef, was[x - at + from]))
  }

  /** A piece added to itself, or nothing of another, stays wiped. */
  lemma StaysWiped(was: seq<Byte>, now: seq<Byte>, coef: Byte, c: nat, r: nat, n: nat)
    requires Multiplied(was, now, coef, Start(c, n), Start(r, n), n) && Wiped(was, Start(r, n), n)
    requires coef == if r == c then ONE else ZERO
    ensures Wiped(now, Start(r, n), n)
  {
    hide Add, Mul, Start;
    forall x | Start(r, n) <= x < Start(r, n) + n
      ensures now[x] == ZERO
    {
      NothingAdded(coef);
      AddNothing(was[x - Start(r, n) + Start(c, n)]);
    }
  }

  lemma TermAdded(was: seq<Byte>, now: seq<Byte>, k: nat, data: seq<Byte>, r: nat, at: nat, n: nat, c: nat)
    requires r < 256 && c < k
    requires DataLaid(was, k, data, n) && Partial(was, k, data, r, at, n, c)
    requires Multiplied(was, now, GeneratorRow(k, r)[c], Start(c, n), at, n)
    ensures Partial(now, k, data, r, at, n, c + 1)
  {
    hide Add, Mul, GeneratorRow, Dot, Column;
    forall b | 0 <= b < n
      ensures now[at + b] == Dot(GeneratorRow(k, r)[..c + 1], Column(k, data, b)[..c + 1])
    {
      DotPrefix(GeneratorRow(k, r), Column(k, data, b), c);
      DataAt(was, k, data, n, c, b);
      assert was[at + b] == Dot(GeneratorRow(k, r)[..c], Column(k, data, b)[..c]);
      assert now[at + b] == Add(was[at + b], Mul(GeneratorRow(k, r)[c], was[Start(c, n) + b]));
    }
  }

  /** Codes piece `r`. Above the data pieces it becomes its row of the generator over the data; an index that has wrapped below
      `k` names a data piece, and wipes it. */
  method EncodeParity(t: Tables, pieces: array<Byte>, k: nat, r: nat, n: nat, ghost data: seq<Byte>)
    requires t.Valid() && t.ready && pieces != t.exp
    requires Start(k, n) <= pieces.Length && Start(r, n) + n <= pieces.Length
    modifies pieces
    ensures forall x :: 0 <= x < pieces.Length && !(Start(r, n) <= x < Start(r, n) + n) ==> pieces[x] == old(pieces[x])
    ensures k <= r < 256 && DataLaid(old(pieces[..]), k, data, n) ==> PieceLaid(pieces[..], k, data, r, Start(r, n), n)
    ensures r < k ==> Wiped(pieces[..], Start(r, n), n)
  {
    if k <= r {
      StartBelow(k, r, n);
    }
    hide Column, GeneratorRow, DataLaid, Partial, Start;
    var at := Start(r, n);
    ghost var coded := k <= r < 256 && DataLaid(pieces[..], k, data, n);
    ghost var was := pieces[..];
    ClearPiece(pieces, at, n);
    if coded {
      Cleared(pieces[..], k, data, r, at, n);
    }
    for c := 0 to k
      invariant forall x :: 0 <= x < pieces.Length && !(at <= x < at + n) ==> pieces[x] == was[x]
      invariant coded ==> Partial(pieces[..], k, data, r, at, n, c)
      invariant r < k ==> Wiped(pieces[..], at, n)
    {
      if coded {
        DataKept(was, pieces[..], k, data, n, at);
      }
      AddTerm(t, pieces, k, r, n, c, data);
    }
    if coded {
      AllTerms(pieces[..], k, data, r, at, n);
    }
  }

  lemma Cleared(pieces: seq<Byte>, k: nat, data: seq<Byte>, r: nat, at: nat, n: nat)
    requires r < 256 && Wiped(pieces, at, n)
    ensures Partial(pieces, k, data, r, at, n, 0)
  {
    hide Column, GeneratorRow;
    forall b | 0 <= b < n
      ensures pieces[at + b] == Dot(GeneratorRow(k, r)[..0], Column(k, data, b)[..0])
    {
    }
  }

  /** Writing above the data pieces leaves them laid. */
  lemma DataKept(was: seq<Byte>, now: seq<Byte>, k: nat, data: seq<Byte>, n: nat, at: nat)
    requires DataLaid(was, k, data, n) && |now| == |was| && Start(k, n) <= at
    requires forall x :: 0 <= x < |was| && x < at ==> now[x] == was[x]
    ensures DataLaid(now, k, data, n)
  {
    hide PieceLen;
  }

  lemma AllTerms(pieces: seq<Byte>, k: nat, data: seq<Byte>, r: nat, at: nat, n: nat)
    requires r < 256 && Partial(pieces, k, data, r, at, n, k)
    ensures PieceLaid(pieces, k, data, r, at, n)
  {
    hide Column, GeneratorRow;
    forall b | 0 <= b < n
      ensures pieces[at + b] == CodeByte(k, data, r, b)
    {
      assert pieces[at + b] == Dot(GeneratorRow(k, r)[..k], Column(k, data, b)[..k]);
      assert GeneratorRow(k, r)[..k] == GeneratorRow(k, r) && Column(k, data, b)[..k] == Column(k, data, b);
    }
  }

  /** Where piece `r` starts. */
  function Start(r: nat, n: nat): (at: nat) {
    r * n
  }

  lemma StartOrder(r: nat, s: nat, n: nat)
    requires r < s
    ensures Start(r, n) + n <= Start(s, n)
  {
    Offset(r, s, n);
  }

  lemma StartBelow(r: nat, s: nat, n: nat)
    requires r <= s
    ensures Start(r, n) <= Start(s, n)
  {
    if r < s {
      StartOrder(r, s, n);
    }
  }

  /** The first `count` pieces are their rows of the generator over the data. */
  ghost predicate Laid(pieces: seq<Byte>, k: nat, data: seq<Byte>, count: nat) {
    var n := PieceLen(|data|, k);
    count <= 256 && forall r :: 0 <= r < count ==> PieceLaid(pieces, k, data, r, Start(r, n), n)
  }

  lemma DataPiecesLaid(pieces: seq<Byte>, k: nat, data: seq<Byte>, n: nat)
    requires k <= 256 && DataLaid(pieces, k, data, n)
    ensures Laid(pieces, k, data, k)
  {
    hide Dot, CodeByte;
    forall r | 0 <= r < k
      ensures PieceLaid(pieces, k, data, r, Start(r, n), n)
    {
      Offset(r, k, n);
      forall b | 0 <= b < n
        ensures pieces[Start(r, n) + b] == CodeByte(k, data, r, b)
      {
        Systematic(k, data, r, b);
        DataAt(pieces, k, data, n, r, b);
      }
    }
  }

  /** Writing piece `count` leaves the earlier ones laid. */
  lemma LaidStep(before: seq<Byte>, after: seq<Byte>, k: nat, data: seq<Byte>, count: nat)
    requires count < 256 && Laid(before, k, data, count) && |after| == |before|
    requires var n := PieceLen(|data|, k); var at := Start(count, n);
             PieceLaid(after, k, data, count, at, n) &&
             forall x :: 0 <= x < |before| && !(at <= x < at + n) ==> after[x] == before[x]
    ensures Laid(after, k, data, count + 1)
  {
    hide CodeByte, PieceLen, Start;
    var n := PieceLen(|data|, k);
    forall r | 0 <= r < count
      ensures PieceLaid(after, k, data, r, Start(r, n), n)
    {
      StartOrder(r, count, n);
      assert PieceLaid(before, k, data, r, Start(r, n), n);
    }
  }

  /** Clears the data pieces and copies the buffer in. */
  method LayData(pieces: array<Byte>, k: nat, data: seq<Byte>, n: nat)
    requires n == PieceLen(|data|, k) && k * n <= pieces.Length
    modifies pieces
    ensures DataLaid(pieces[..], k, data, n)
    ensures forall x :: k * n <= x < pieces.Length ==> pieces[x] == old(pieces[x])
  {
    for x := 0 to k * n
      invariant forall y :: 0 <= y < x ==> pieces[y] == if y < |data| then data[y] else ZERO
      invariant forall y :: x <= y < pieces.Length ==> pieces[y] == old(pieces[y])
    {
      pieces[x] := if x < |data| then data[x] else ZERO;
    }
  }

  /** What the parity pieces done so far leave: pieces coded, or, once the index wraps, data pieces wiped. */
  ghost predicate Progress(pieces: seq<Byte>, k: Unsigned, data: seq<Byte>, n: nat, j: nat) {
    && (k as nat + j <= PIECES_MAX ==> DataLaid(pieces, k, data, n) && Laid(pieces, k, data, k as nat + j))
    && forall q: nat :: k as nat + j > WORD + q ==> Wiped(pieces, Start(q, n), n)
  }

  lemma ProgressStep(before: seq<Byte>, after: seq<Byte>, k: Unsigned, data: seq<Byte>, n: nat, j: Unsigned)
    requires k > 0 && n == PieceLen(|data|, k) && Progress(before, k, data, n, j) && |after| == |before|
    requires var r := Sum(k, j);
             && (forall x :: 0 <= x < |before| && !(Start(r, n) <= x < Start(r, n) + n) ==> after[x] == before[x])
             && (k <= r < 256 && DataLaid(before, k, data, n) ==> PieceLaid(after, k, data, r, Start(r, n), n))
             && (r < k ==> Wiped(after, Start(r, n), n))
    ensures Progress(after, k, data, n, j + 1)
  {
    hide Laid, DataLaid, PieceLaid, Sum, Start, PieceLen, Wiped;
    SumIs(k, j);
    var r := Sum(k, j);
    if k as nat + j + 1 <= PIECES_MAX {
      StartBelow(k, r, n);
      DataKept(before, after, k, data, n, Start(r, n));
      LaidStep(before, after, k, data, r);
    }
    forall q: nat | k as nat + j + 1 > WORD + q
      ensures Wiped(after, Start(q, n), n)
    {
      if q < r {
        StartOrder(q, r, n);
        assert Wiped(before, Start(q, n), n);
        WipedKept(before, after, Start(q, n), Start(r, n), n);
      }
    }
  }

  lemma WipedKept(before: seq<Byte>, after: seq<Byte>, at: nat, other: nat, n: nat)
    requires Wiped(before, at, n) && at + n <= other && |after| == |before|
    requires forall x :: 0 <= x < |before| && !(other <= x < other + n) ==> after[x] == before[x]
    ensures Wiped(after, at, n)
  {
  }

  method EncodeParities(t: Tables, pieces: array<Byte>, k: Unsigned, m: Unsigned, n: nat, ghost data: seq<Byte>)
    requires t.Valid() && t.ready && pieces != t.exp && k > 0 && n == PieceLen(|data|, k)
    requires Start(k as nat + m as nat, n) <= pieces.Length && Progress(pieces[..], k, data, n, 0)
    modifies pieces
    ensures Progress(pieces[..], k, data, n, m)
    ensures forall x :: Start(k as nat + m as nat, n) <= x < pieces.Length ==> pieces[x] == old(pieces[x])
  {
    hide PieceLen, Progress, Start;
    for j := 0 to m
      invariant Progress(pieces[..], k, data, n, j)
      invariant forall x :: Start(k as nat + m as nat, n) <= x < pieces.Length ==> pieces[x] == old(pieces[x])
    {
      SumIs(k, j);
      StartOrder(Sum(k, j), k as nat + m as nat, n);
      StartBelow(k, k as nat + m as nat, n);
      ghost var before := pieces[..];
      EncodeParity(t, pieces, k, Sum(k, j), n, data);
      ProgressStep(before, pieces[..], k, data, n, j);
    }
  }

  lemma DataProgress(pieces: seq<Byte>, k: Unsigned, data: seq<Byte>, n: nat)
    requires DataLaid(pieces, k, data, n)
    ensures Progress(pieces, k, data, n, 0)
  {
    hide Laid;
    if k <= PIECES_MAX {
      DataPiecesLaid(pieces, k, data, n);
    }
  }

  /** Cuts and codes `data` into `pieces`, piece `i` at `i` times the piece length. A shape whose sum wraps is taken for one
      within the limit, and then the data pieces the wrapped indices name are wiped. */
  method Encode(t: Tables, k: Unsigned, m: Unsigned, data: seq<Byte>, pieces: array<Byte>) returns (r: Outcome)
    requires t.Valid() && pieces != t.exp
    requires ShapeOk(k, m, |data|) ==> Start(k as nat + m as nat, PieceLen(|data|, k)) <= pieces.Length
    modifies t, t.exp, t.log, pieces
    ensures t.Valid()
    ensures r == if ShapeOk(k, m, |data|) then Ok else Malformed
    ensures r == Malformed ==> pieces[..] == old(pieces[..])
    ensures r == Ok && Documented(k, m, |data|) ==> Laid(pieces[..], k, data, k as nat + m as nat)
    ensures r == Ok && !Documented(k, m, |data|) ==>
              forall q: nat :: q < Sum(k, m) ==> Wiped(pieces[..], Start(q, PieceLen(|data|, k)), PieceLen(|data|, k))
    ensures r == Ok ==>
              forall x :: Start(k as nat + m as nat, PieceLen(|data|, k)) <= x < pieces.Length ==> pieces[x] == old(pieces[x])
  {
    if !ShapeOk(k, m, |data|) {
      return Malformed;
    }
    hide Laid, PieceLen;
    var n := PieceLen(|data|, k);
    t.Init();
    SumIs(k, m);
    StartOrder(k, k as nat + m as nat, n);
    LayData(pieces, k, data, n);
    DataProgress(pieces[..], k, data, n);
    EncodeParities(t, pieces, k, m, n, data);
    return Ok;
  }
}
