/** The canonical form of a manifest, chain/manifest.c: a signed, strictly ascending list of an issuer's pairs. */
module ManifestForm {
  import opened ByteOrder

  const VERSION: Octet := 1
  const OBJECT: Octet := 131
  const HEADER_LEN: nat := 36
  const KEY_LEN: nat := 64
  const PAIR_LEN: nat := 97
  const SIG_LEN: nat := 64
  const MIN_LEN: nat := 100
  const MAX_PAIRS: nat := 2701

  const REVOKED: Octet := 0
  const WITHDRAWN: Octet := 1

  datatype Error = Malformed | Shape | BadSignature
  datatype Result<T> = Ok(value: T) | Err(error: Error)

  type Signature = b: Bytes | |b| == SIG_LEN witness seq(64, _ => 0)

  /** What an issuer says about one pair: the last revocation of it, and whether that stands. */
  datatype Row = Row(cap: Id32, grantee: Id32, id: Id32, state: Octet)

  function Key(r: Row): (k: Bytes)
    ensures |k| == KEY_LEN
  {
    r.cap + r.grantee
  }

  function Keys(rows: seq<Row>): (s: seq<Bytes>)
    ensures |s| == |rows|
  {
    seq(|rows|, i requires 0 <= i < |rows| => Key(rows[i]))
  }

  predicate StateOk(r: Row) {
    r.state == REVOKED || r.state == WITHDRAWN
  }

  ghost predicate Canonical(rows: seq<Row>) {
    Ascending(Keys(rows)) && forall i :: 0 <= i < |rows| ==> StateOk(rows[i])
  }

  /** The order of two keys, capability first and then grantee. */
  lemma {:induction false} KeyDecides(a: Bytes, b: Bytes, c: Bytes, d: Bytes)
    requires |a| == |c|
    ensures Before(a + b, c + d) <==> Before(a, c) || (a == c && Before(b, d))
    decreases |a|
  {
    if |a| == 0 {
      assert a + b == b && c + d == d;
    } else {
      KeyDecides(a[1..], b, c[1..], d);
      assert (a + b)[1..] == a[1..] + b && (c + d)[1..] == c[1..] + d;
      assert a == [a[0]] + a[1..] && c == [c[0]] + c[1..];
    }
  }

  lemma KeyParts(a: Bytes, b: Bytes, c: Bytes, d: Bytes)
    requires |a| == |c| && a + b == c + d
    ensures a == c && b == d
  {
    assert (a + b)[..|a|] == a && (c + d)[..|a|] == c && (a + b)[|a|..] == b && (c + d)[|a|..] == d;
  }

  // ---- the bytes ---------------------------------------------------------------------------------

  function RowBytes(r: Row): (b: Bytes)
    ensures |b| == PAIR_LEN && b[..KEY_LEN] == Key(r) && b[PAIR_LEN - 1] == r.state
  {
    r.cap + r.grantee + r.id + [r.state]
  }

  function RowOf(b: Bytes): (r: Row)
    requires |b| == PAIR_LEN
  {
    Row(b[..32], b[32..64], b[64..96], b[96])
  }

  lemma RowRoundTrip(r: Row, b: Bytes)
    requires |b| == PAIR_LEN
    ensures RowOf(RowBytes(r)) == r && RowBytes(RowOf(b)) == b
  {
    var c := RowBytes(r);
    assert c[..32] == r.cap && c[32..64] == r.grantee && c[64..96] == r.id;
  }

  function Packed(rows: seq<Row>): (b: Bytes)
    ensures |b| == PAIR_LEN * |rows|
  {
    if |rows| == 0 then [] else Packed(rows[..|rows| - 1]) + RowBytes(rows[|rows| - 1])
  }

  /** The bytes of entry `i`. */
  function Slice(b: Bytes, i: nat): (s: Bytes)
    requires PAIR_LEN * (i + 1) <= |b|
    ensures |s| == PAIR_LEN
  {
    b[PAIR_LEN * i..PAIR_LEN * (i + 1)]
  }

  function Unpacked(b: Bytes): (rows: seq<Row>)
    ensures |rows| == |b| / PAIR_LEN
  {
    seq(|b| / PAIR_LEN, i requires 0 <= i < |b| / PAIR_LEN => RowOf(Slice(b, i)))
  }

  lemma {:induction false} PackedConcat(s: seq<Row>, t: seq<Row>)
    ensures Packed(s + t) == Packed(s) + Packed(t)
  {
    hide RowBytes;
    if |t| == 0 {
      assert s + t == s;
    } else {
      var n := |t| - 1;
      PackedConcat(s, t[..n]);
      assert (s + t)[..|s + t| - 1] == s + t[..n];
    }
  }

  lemma PackedOne(r: Row)
    ensures Packed([r]) == RowBytes(r)
  {
    hide RowBytes;
    assert [r][..0] == [];
  }

  lemma PackedAt(rows: seq<Row>, i: nat)
    requires i < |rows|
    ensures Slice(Packed(rows), i) == RowBytes(rows[i])
  {
    hide RowBytes, Packed;
    PackedAround(rows, i);
    Middle(Packed(rows[..i]), RowBytes(rows[i]), Packed(rows[i + 1..]));
  }

  lemma PackedAround(rows: seq<Row>, i: nat)
    requires i < |rows|
    ensures Packed(rows) == Packed(rows[..i]) + RowBytes(rows[i]) + Packed(rows[i + 1..])
  {
    hide RowBytes, Packed;
    Around(rows, i);
    PackedThree(rows[..i], rows[i], rows[i + 1..]);
  }

  lemma PackedThree(a: seq<Row>, r: Row, c: seq<Row>)
    ensures Packed(a + [r] + c) == Packed(a) + RowBytes(r) + Packed(c)
  {
    hide RowBytes, Packed;
    PackedConcat(a + [r], c);
    PackedConcat(a, [r]);
    PackedOne(r);
  }

  lemma PackedSplit(rows: seq<Row>, at: nat)
    requires at <= |rows|
    ensures Packed(rows)[..PAIR_LEN * at] == Packed(rows[..at]) && Packed(rows)[PAIR_LEN * at..] == Packed(rows[at..])
  {
    hide RowBytes, Packed;
    PackedConcat(rows[..at], rows[at..]);
    Halves(rows, at);
  }

  lemma Halves<T>(s: seq<T>, i: nat)
    requires i <= |s|
    ensures s == s[..i] + s[i..]
  {
  }

  lemma Around<T>(s: seq<T>, i: nat)
    requires i < |s|
    ensures s == s[..i] + [s[i]] + s[i + 1..]
  {
  }

  lemma Middle(a: Bytes, b: Bytes, c: Bytes)
    ensures (a + b + c)[|a|..|a| + |b|] == b
  {
  }

  lemma UnpackedPacked(rows: seq<Row>)
    ensures Unpacked(Packed(rows)) == rows
  {
    hide RowBytes, RowOf;
    var b := Packed(rows);
    forall i | 0 <= i < |rows|
      ensures RowOf(Slice(b, i)) == rows[i]
    {
      PackedAt(rows, i);
      RowRoundTrip(rows[i], Slice(b, i));
    }
  }

  lemma {:induction false} PackedUnpacked(b: Bytes)
    requires |b| % PAIR_LEN == 0
    ensures Packed(Unpacked(b)) == b
  {
    hide RowBytes, RowOf;
    if |b| > 0 {
      var n := |b| / PAIR_LEN - 1;
      var c := b[..PAIR_LEN * n];
      PackedUnpacked(c);
      UnpackedPrefix(b, n);
      assert b == c + Slice(b, n);
      RowRoundTrip(Unpacked(b)[n], Slice(b, n));
    }
  }

  lemma UnpackedPrefix(b: Bytes, n: nat)
    requires n <= |b| / PAIR_LEN
    ensures Unpacked(b[..PAIR_LEN * n]) == Unpacked(b)[..n]
  {
    hide RowOf;
    var c := b[..PAIR_LEN * n];
    forall i | 0 <= i < n
      ensures Slice(c, i) == Slice(b, i)
    {
    }
  }

  /** Everything before the pairs. */
  function Head(issuer: Id32, n: nat): (b: Bytes)
    requires n < 65536
    ensures |b| == HEADER_LEN && b[2..34] == issuer && b[0] == VERSION && b[1] == OBJECT && b[34] as nat * 256 + b[35] as nat == n
  {
    [VERSION, OBJECT] + issuer + [n / 256, n % 256]
  }

  /** What the signature covers. */
  function BodyOf(issuer: Id32, rows: seq<Row>): (b: Bytes)
    requires |rows| <= MAX_PAIRS
    ensures |b| == HEADER_LEN + PAIR_LEN * |rows|
  {
    Head(issuer, |rows|) + Packed(rows)
  }

  function Whole(issuer: Id32, rows: seq<Row>, sig: Signature): (b: Bytes)
    requires |rows| <= MAX_PAIRS
    ensures |b| == WholeLen(|rows|)
  {
    BodyOf(issuer, rows) + sig
  }

  function WholeLen(n: nat): (len: nat) { HEADER_LEN + PAIR_LEN * n + SIG_LEN }

  // ---- reading ------------------------------------------------------------------------------------

  function CountIn(b: Bytes): (n: nat)
    requires |b| >= MIN_LEN
  {
    b[34] as nat * 256 + b[35] as nat
  }

  function PairsIn(b: Bytes): (p: Bytes)
    requires |b| >= MIN_LEN
    ensures |p| == |b| - MIN_LEN
  {
    b[HEADER_LEN..|b| - SIG_LEN]
  }

  /** The bytes a receiver accepts. */
  ghost predicate Opens(b: Bytes) {
    && |b| >= MIN_LEN && b[0] == VERSION && b[1] == OBJECT
    && CountIn(b) <= MAX_PAIRS && |b| == WholeLen(CountIn(b))
    && Canonical(Unpacked(PairsIn(b)))
  }

  method Open(b: Bytes) returns (ok: bool)
    ensures ok == Opens(b)
  {
    if |b| < MIN_LEN {
      return false;
    }
    if b[0] != VERSION || b[1] != OBJECT {
      return false;
    }
    var count := CountIn(b);
    if count > MAX_PAIRS || |b| != WholeLen(count) {
      return false;
    }
    var pairs := PairsIn(b);
    hide RowOf, Slice, PairsIn, CountIn, Ascending;
    assert |Unpacked(pairs)| == count;
    var ascends := PairsAscend(pairs, count);
    if !ascends {
      return false;
    }
    ok := StatesOk(pairs, count);
  }

  lemma KeyOfSlice(b: Bytes, i: nat)
    requires PAIR_LEN * (i + 1) <= |b|
    ensures Key(RowOf(Slice(b, i))) == Slice(b, i)[..KEY_LEN] && RowOf(Slice(b, i)).state == Slice(b, i)[PAIR_LEN - 1]
  {
    var s := Slice(b, i);
    assert s[..64] == s[..32] + s[32..64];
  }

  method PairsAscend(pairs: Bytes, count: nat) returns (yes: bool)
    requires |pairs| == PAIR_LEN * count
    ensures yes == Ascending(Keys(Unpacked(pairs)))
  {
    hide RowOf, Slice, Before, Key;
    var i := 1;
    while i < count
      invariant i >= 1 && forall j :: 0 < j < i && j < count ==> Before(Keys(Unpacked(pairs))[j - 1], Keys(Unpacked(pairs))[j])
    {
      KeyOfSlice(pairs, i - 1);
      KeyOfSlice(pairs, i);
      assert Keys(Unpacked(pairs))[i - 1] == Slice(pairs, i - 1)[..KEY_LEN] && Keys(Unpacked(pairs))[i] == Slice(pairs, i)[..KEY_LEN];
      if !Before(Slice(pairs, i - 1)[..KEY_LEN], Slice(pairs, i)[..KEY_LEN]) {
        return false;
      }
      i := i + 1;
    }
    yes := true;
  }

  method StatesOk(pairs: Bytes, count: nat) returns (yes: bool)
    requires |pairs| == PAIR_LEN * count
    ensures yes == forall i :: 0 <= i < count ==> StateOk(Unpacked(pairs)[i])
  {
    hide RowOf, Slice;
    for i := 0 to count
      invariant forall j :: 0 <= j < i ==> StateOk(Unpacked(pairs)[j])
    {
      KeyOfSlice(pairs, i);
      assert Unpacked(pairs)[i].state == Slice(pairs, i)[PAIR_LEN - 1];
      var state := Slice(pairs, i)[PAIR_LEN - 1];
      if state != REVOKED && state != WITHDRAWN {
        return false;
      }
    }
    yes := true;
  }

  /** What was written is read back. */
  lemma WholeParts(issuer: Id32, rows: seq<Row>, sig: Signature)
    requires |rows| <= MAX_PAIRS
    ensures var b := Whole(issuer, rows, sig);
            && b[0] == VERSION && b[1] == OBJECT && b[2..34] == issuer && CountIn(b) == |rows|
            && PairsIn(b) == Packed(rows) && b[|b| - SIG_LEN..] == sig
  {
    hide Packed;
    var b, h := Whole(issuer, rows, sig), Head(issuer, |rows|);
    assert b[..HEADER_LEN] == h;
    assert b[2..34] == h[2..34];
  }

  /** What an encoder refuses, a receiver refuses, and the other way round: a manifest opens exactly when its rows are
      canonical. */
  lemma OpensIffCanonical(issuer: Id32, rows: seq<Row>, sig: Signature)
    requires |rows| <= MAX_PAIRS
    ensures Opens(Whole(issuer, rows, sig)) <==> Canonical(rows)
  {
    hide Whole, Packed, Canonical, CountIn, PairsIn, Unpacked;
    WholeParts(issuer, rows, sig);
    UnpackedPacked(rows);
  }

  /** Bytes that open re-encode to the same bytes. */
  lemma Reencodes(b: Bytes)
    requires Opens(b)
    ensures |Unpacked(PairsIn(b))| <= MAX_PAIRS
    ensures Whole(b[2..34], Unpacked(PairsIn(b)), b[|b| - SIG_LEN..]) == b
  {
    hide Canonical, Unpacked, Packed;
    var rows := Unpacked(PairsIn(b));
    PackedUnpacked(PairsIn(b));
    var h := Head(b[2..34], |rows|);
    BigEndian(b[34], b[35]);
    assert h == b[..HEADER_LEN];
    assert b == b[..HEADER_LEN] + PairsIn(b) + b[|b| - SIG_LEN..];
  }

  lemma BigEndian(hi: Octet, lo: Octet)
    ensures var n := hi as nat * 256 + lo as nat; n / 256 == hi && n % 256 == lo
  {
  }

  /** The layout, byte by byte. */
  lemma Layout(issuer: Id32, rows: seq<Row>, sig: Signature, i: nat)
    requires |rows| <= MAX_PAIRS && i < |rows|
    ensures var b, at := Whole(issuer, rows, sig), 36 + 97 * i;
            && |b| == 36 + 97 * |rows| + 64 && b[0] == 1 && b[1] == 131 && b[2..34] == issuer
            && b[34] as nat * 256 + b[35] as nat == |rows|
            && b[at..at + 32] == rows[i].cap && b[at + 32..at + 64] == rows[i].grantee && b[at + 64..at + 96] == rows[i].id
            && b[at + 96] == rows[i].state && b[|b| - 64..] == sig
  {
    hide Packed, Slice;
    WholeParts(issuer, rows, sig);
    PackedAt(rows, i);
    var b, at := Whole(issuer, rows, sig), 36 + 97 * i;
    SliceAt(b, rows, i);
    RowLayout(rows[i]);
    var r := b[at..at + 97];
    assert b[at..at + 32] == r[..32] && b[at + 32..at + 64] == r[32..64] && b[at + 64..at + 96] == r[64..96] && b[at + 96] == r[96];
  }

  lemma SliceAt(b: Bytes, rows: seq<Row>, i: nat)
    requires |b| == WholeLen(|rows|) && PairsIn(b) == Packed(rows) && i < |rows|
    requires Slice(Packed(rows), i) == RowBytes(rows[i])
    ensures b[36 + 97 * i..36 + 97 * i + 97] == RowBytes(rows[i])
  {
    hide Packed, RowBytes;
    SubSlice(b, 36, |b| - 64, 97 * i, 97 * (i + 1));
  }

  lemma RowLayout(r: Row)
    ensures var b := RowBytes(r); b[..32] == r.cap && b[32..64] == r.grantee && b[64..96] == r.id && b[96] == r.state
  {
  }

  /** Canonical, over the fields: each pair after the last by capability, or by grantee within one, and each state one of the two. */
  lemma CanonicalMeans(rows: seq<Row>)
    ensures Canonical(rows) <==>
            && (forall i :: 0 < i < |rows| ==>
                  Before(rows[i - 1].cap, rows[i].cap) || (rows[i - 1].cap == rows[i].cap && Before(rows[i - 1].grantee, rows[i].grantee)))
            && forall i :: 0 <= i < |rows| ==> rows[i].state == 0 || rows[i].state == 1
  {
    hide Before;
    forall i | 0 < i < |rows|
      ensures Before(Keys(rows)[i - 1], Keys(rows)[i]) <==>
              Before(rows[i - 1].cap, rows[i].cap) || (rows[i - 1].cap == rows[i].cap && Before(rows[i - 1].grantee, rows[i].grantee))
    {
      KeyDecides(rows[i - 1].cap, rows[i - 1].grantee, rows[i].cap, rows[i].grantee);
    }
  }
}
