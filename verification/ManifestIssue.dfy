/** Issuing a manifest from a store, chain/manifest.c: an insertion sort by memmove in the output buffer. */
module ManifestIssue {
  import opened ByteOrder
  import opened ManifestForm

  /** What the store holds about a pair. */
  datatype Held = Held(issuer: Id32, cap: Id32, grantee: Id32, id: Id32, withdrawn: bool)

  function RowFor(e: Held): (r: Row)
    ensures StateOk(r)
  {
    Row(e.cap, e.grantee, e.id, if e.withdrawn then WITHDRAWN else REVOKED)
  }

  ghost predicate OnePerTriple(s: seq<Held>) {
    forall i, j :: 0 <= i < j < |s| ==> !(s[i].issuer == s[j].issuer && s[i].cap == s[j].cap && s[i].grantee == s[j].grantee)
  }

  /** What the issuer's entries say. */
  ghost function Said(s: seq<Held>, issuer: Id32): (rows: set<Row>) {
    set i | 0 <= i < |s| && s[i].issuer == issuer :: RowFor(s[i])
  }

  // ---- the sorted rows, as a value -------------------------------------------------------------------

  /** Where a key goes: before the first row that is not before it. */
  function Place(rows: seq<Row>, key: Bytes): (at: nat)
    ensures at <= |rows|
    ensures at < |rows| ==> !Before(Key(rows[at]), key)
    ensures forall i :: 0 <= i < at ==> Before(Key(rows[i]), key)
  {
    if |rows| == 0 || !Before(Key(rows[0]), key) then 0
    else
      var at := 1 + Place(rows[1..], key);
      assert forall i :: 1 <= i < at ==> rows[i] == rows[1..][i - 1];
      at
  }

  predicate Duplicate(rows: seq<Row>, key: Bytes) {
    var at := Place(rows, key);
    at < |rows| && Key(rows[at]) == key
  }

  function WithRow(rows: seq<Row>, r: Row): (s: seq<Row>) {
    var at := Place(rows, Key(r));
    if Duplicate(rows, Key(r)) then rows else rows[..at] + [r] + rows[at..]
  }

  /** The rows a store yields, in a buffer of `cap` bytes. */
  function Issued(s: seq<Held>, issuer: Id32, cap: nat): (r: Result<seq<Row>>) {
    if |s| == 0 then Ok([])
    else
      var before, e := Issued(s[..|s| - 1], issuer, cap), s[|s| - 1];
      if before.Err? || e.issuer != issuer then before
      else if |before.value| >= MAX_PAIRS then Err(Shape)
      else if cap < WholeLen(|before.value| + 1) then Err(Malformed)
      else Ok(WithRow(before.value, RowFor(e)))
  }

  lemma WithRowCanonical(rows: seq<Row>, r: Row)
    requires Canonical(rows) && StateOk(r)
    ensures Canonical(WithRow(rows, r))
  {
    hide Before, Key;
    var at, s := Place(rows, Key(r)), WithRow(rows, r);
    if !Duplicate(rows, Key(r)) {
      if at < |rows| {
        Trichotomy(Key(r), Key(rows[at]));
      }
      forall i | 0 < i < |s|
        ensures Before(Keys(s)[i - 1], Keys(s)[i])
      {
        if i < at {
          assert Before(Keys(rows)[i - 1], Keys(rows)[i]);
        } else if i > at + 1 {
          assert Before(Keys(rows)[i - 2], Keys(rows)[i - 1]);
        }
      }
    }
  }

  lemma NewKey(rows: seq<Row>, r: Row)
    requires forall i :: 0 <= i < |rows| ==> Key(rows[i]) != Key(r)
    ensures !Duplicate(rows, Key(r)) && |WithRow(rows, r)| == |rows| + 1
    ensures forall x :: x in WithRow(rows, r) <==> x in rows || x == r
  {
    hide Before, Key;
    var at := Place(rows, Key(r));
    assert rows == rows[..at] + rows[at..];
  }

  lemma DuplicateIsHeld(rows: seq<Row>, r: Row)
    ensures forall x :: x in WithRow(rows, r) ==> x in rows || x == r
  {
    hide Before, Key;
    var at := Place(rows, Key(r));
    assert rows == rows[..at] + rows[at..];
  }

  /** Whatever the store, what is issued is canonical and says only what the issuer's entries say. */
  lemma {:induction false} IssuedCanonical(s: seq<Held>, issuer: Id32, cap: nat)
    requires Issued(s, issuer, cap).Ok?
    ensures var rows := Issued(s, issuer, cap).value;
            Canonical(rows) && |rows| <= MAX_PAIRS && (forall r :: r in rows ==> r in Said(s, issuer)) &&
            (|rows| > 0 ==> WholeLen(|rows|) <= cap)
  {
    hide WithRow, Canonical, Said;
    if |s| == 0 {
      EmptyCanonical();
    } else {
      var n := |s| - 1;
      IssuedCanonical(s[..n], issuer, cap);
      SaidStep(s[..n], s[n], issuer);
      assert s == s[..n] + [s[n]];
      if s[n].issuer == issuer {
        var rows := Issued(s[..n], issuer, cap).value;
        WithRowCanonical(rows, RowFor(s[n]));
        DuplicateIsHeld(rows, RowFor(s[n]));
        WithRowLength(rows, RowFor(s[n]));
      }
    }
  }

  lemma WithRowLength(rows: seq<Row>, r: Row)
    ensures |rows| <= |WithRow(rows, r)| <= |rows| + 1
  {
  }

  lemma EmptyCanonical()
    ensures Canonical([])
  {
  }

  lemma SaidStep(s: seq<Held>, e: Held, issuer: Id32)
    ensures Said(s + [e], issuer) == if e.issuer == issuer then Said(s, issuer) + {RowFor(e)} else Said(s, issuer)
  {
    var t := s + [e];
    assert t[|s|] == e;
    assert forall i :: 0 <= i < |s| ==> t[i] == s[i];
  }

  /** With one entry per triple, the manifest holds exactly the issuer's entries, each with its id and state; and it is
      issued exactly when that many rows are allowed and fit. */
  lemma {:induction false} IssuedExactly(s: seq<Held>, issuer: Id32, cap: nat)
    requires OnePerTriple(s)
    ensures Exact(Issued(s, issuer, cap), Said(s, issuer), cap)
  {
    hide Exact, More, Said, Key, RowFor;
    if |s| == 0 {
      NothingSaid(issuer);
      ExactEmpty(cap);
    } else {
      var n := |s| - 1;
      IssuedExactly(s[..n], issuer, cap);
      SaidStep(s[..n], s[n], issuer);
      assert s == s[..n] + [s[n]];
      IssuedStep(s, issuer, cap);
      if s[n].issuer == issuer {
        SaidElsewhere(s, issuer);
        ExactStep(Issued(s[..n], issuer, cap), Said(s[..n], issuer), RowFor(s[n]), cap);
      }
    }
  }

  /** The rows are issued exactly when so many are allowed and fit, and then they are those said. */
  ghost predicate Exact(r: Result<seq<Row>>, said: set<Row>, cap: nat) {
    var n := |said|;
    && (r.Ok? <==> n == 0 || (n <= MAX_PAIRS && WholeLen(n) <= cap))
    && (r.Ok? ==> |r.value| == n && forall x :: x in r.value <==> x in said)
  }

  /** One row more. */
  function More(before: Result<seq<Row>>, r: Row, cap: nat): (after: Result<seq<Row>>) {
    if before.Err? then before
    else if |before.value| >= MAX_PAIRS then Err(Shape)
    else if cap < WholeLen(|before.value| + 1) then Err(Malformed)
    else Ok(WithRow(before.value, r))
  }

  lemma IssuedStep(s: seq<Held>, issuer: Id32, cap: nat)
    requires |s| > 0
    ensures var before := Issued(s[..|s| - 1], issuer, cap);
            Issued(s, issuer, cap) == if s[|s| - 1].issuer == issuer then More(before, RowFor(s[|s| - 1]), cap) else before
  {
    hide WithRow, RowFor;
  }

  lemma ExactStep(before: Result<seq<Row>>, said: set<Row>, r: Row, cap: nat)
    requires Exact(before, said, cap) && r !in said && forall x :: x in said ==> Key(x) != Key(r)
    ensures Exact(More(before, r, cap), said + {r}, cap)
  {
    hide WithRow, Key;
    assert |said + {r}| == |said| + 1;
    if before.Ok? {
      forall i | 0 <= i < |before.value|
        ensures Key(before.value[i]) != Key(r)
      {
        assert before.value[i] in said;
      }
      NewKey(before.value, r);
    }
  }

  lemma ExactEmpty(cap: nat)
    ensures Exact(Ok([]), {}, cap)
  {
  }

  /** Field by field: every row issued is an entry of the issuer's, with its id, withdrawn exactly when the entry is. */
  lemma RowsAreEntries(s: seq<Held>, issuer: Id32, cap: nat, row: Row)
    requires Issued(s, issuer, cap).Ok? && row in Issued(s, issuer, cap).value
    ensures row.state == 0 || row.state == 1
    ensures exists e :: e in s && e.issuer == issuer && e.cap == row.cap && e.grantee == row.grantee && e.id == row.id &&
                        (row.state == 1 <==> e.withdrawn)
  {
    IssuedCanonical(s, issuer, cap);
    assert row in Said(s, issuer);
    var i :| 0 <= i < |s| && s[i].issuer == issuer && row == RowFor(s[i]);
    assert s[i] in s;
  }

  /** And with one entry per triple every entry of the issuer's has its row. */
  lemma EntriesAreRows(s: seq<Held>, issuer: Id32, cap: nat, e: Held)
    requires OnePerTriple(s) && Issued(s, issuer, cap).Ok? && e in s && e.issuer == issuer
    ensures Row(e.cap, e.grantee, e.id, if e.withdrawn then 1 else 0) in Issued(s, issuer, cap).value
  {
    IssuedExactly(s, issuer, cap);
    var i :| 0 <= i < |s| && s[i] == e;
    assert RowFor(s[i]) in Said(s, issuer);
  }

  lemma NothingSaid(issuer: Id32)
    ensures Said([], issuer) == {}
  {
  }

  /** The last entry's key is not one the issuer's other entries have. */
  lemma SaidElsewhere(s: seq<Held>, issuer: Id32)
    requires |s| > 0 && OnePerTriple(s) && s[|s| - 1].issuer == issuer
    ensures forall x :: x in Said(s[..|s| - 1], issuer) ==> Key(x) != Key(RowFor(s[|s| - 1]))
    ensures RowFor(s[|s| - 1]) !in Said(s[..|s| - 1], issuer)
  {
    var n := |s| - 1;
    var r := RowFor(s[n]);
    forall x | x in Said(s[..n], issuer)
      ensures Key(x) != Key(r)
    {
      var i :| 0 <= i < n && s[..n][i].issuer == issuer && x == RowFor(s[i]);
      if Key(x) == Key(r) {
        KeyParts(x.cap, x.grantee, r.cap, r.grantee);
      }
    }
  }

  /** Canonical rows are determined by what they say. */
  lemma CanonicalUnique(s: seq<Row>, t: seq<Row>)
    requires Canonical(s) && Canonical(t) && forall r :: r in s <==> r in t
    ensures s == t
  {
    var a, b := Keys(s), Keys(t);
    forall k: Bytes
      ensures k in a <==> k in b
    {
      SameKeys(s, t, k);
      SameKeys(t, s, k);
    }
    AscendingUnique(a, b);
    forall i | 0 <= i < |s|
      ensures s[i] == t[i]
    {
      assert s[i] in t;
      var j :| 0 <= j < |t| && t[j] == s[i];
      assert b[j] == a[i] == b[i];
      AscendingDistinct(b, i, j);
    }
  }

  lemma SameKeys(s: seq<Row>, t: seq<Row>, k: Bytes)
    requires forall r :: r in s ==> r in t
    ensures k in Keys(s) ==> k in Keys(t)
  {
    if k in Keys(s) {
      var i :| 0 <= i < |s| && Keys(s)[i] == k;
      assert s[i] in t;
      var j :| 0 <= j < |t| && t[j] == s[i];
      assert Keys(t)[j] == k;
    }
  }

  ghost predicate SameEntries(s: seq<Held>, t: seq<Held>) {
    forall e :: e in s <==> e in t
  }

  lemma SameSaid(s: seq<Held>, t: seq<Held>, issuer: Id32)
    requires SameEntries(s, t)
    ensures Said(s, issuer) <= Said(t, issuer)
  {
    forall r | r in Said(s, issuer)
      ensures r in Said(t, issuer)
    {
      var i :| 0 <= i < |s| && s[i].issuer == issuer && RowFor(s[i]) == r;
      assert s[i] in t;
    }
  }

  /** Two stores with the same entries, in whatever order, issue the same manifest or neither does. */
  lemma SameManifest(s: seq<Held>, t: seq<Held>, issuer: Id32, cap: nat)
    requires OnePerTriple(s) && OnePerTriple(t) && SameEntries(s, t)
    ensures Issued(s, issuer, cap).Ok? == Issued(t, issuer, cap).Ok?
    ensures Issued(s, issuer, cap).Ok? ==> Issued(s, issuer, cap) == Issued(t, issuer, cap)
  {
    hide Issued, Canonical, Said, OnePerTriple;
    SameSaid(s, t, issuer);
    SameSaid(t, s, issuer);
    IssuedExactly(s, issuer, cap);
    IssuedExactly(t, issuer, cap);
    assert Said(s, issuer) == Said(t, issuer);
    if Issued(s, issuer, cap).Ok? {
      IssuedCanonical(s, issuer, cap);
      IssuedCanonical(t, issuer, cap);
      CanonicalUnique(Issued(s, issuer, cap).value, Issued(t, issuer, cap).value);
    }
  }

  // ---- in the buffer --------------------------------------------------------------------------------------

  /** The pairs area of the buffer, when it holds `rows`. */
  ghost predicate Holds(out: array<Octet>, rows: seq<Row>)
    reads out
  {
    HEADER_LEN + PAIR_LEN * |rows| <= out.Length && out[HEADER_LEN..HEADER_LEN + PAIR_LEN * |rows|] == Packed(rows)
  }

  lemma PackedWithRow(rows: seq<Row>, at: nat, r: Row)
    requires at <= |rows|
    ensures Packed(rows[..at] + [r] + rows[at..]) ==
            Packed(rows)[..PAIR_LEN * at] + RowBytes(r) + Packed(rows)[PAIR_LEN * at..]
  {
    hide RowBytes, Packed;
    PackedThree(rows[..at], r, rows[at..]);
    PackedSplit(rows, at);
  }

  /** Finds where the candidate goes, comparing keys in the buffer; `duplicate` when its key is there. */
  method FindPlace(out: array<Octet>, ghost rows: seq<Row>, count: nat, candidate: Bytes, ghost r: Row) returns (at: nat, duplicate: bool)
    requires count == |rows| && Holds(out, rows) && candidate == RowBytes(r)
    ensures at == Place(rows, Key(r)) && duplicate == Duplicate(rows, Key(r))
  {
    hide Before, RowBytes, Packed;
    at := 0;
    while at < count
      invariant at <= count && forall i :: 0 <= i < at ==> Before(Key(rows[i]), Key(r))
      decreases count - at
    {
      var o := HEADER_LEN + PAIR_LEN * at;
      var key := out[o..o + KEY_LEN];
      KeyInBuffer(out, rows, at);
      if key == candidate[..KEY_LEN] {
        Irreflexive(Key(r));
        return at, true;
      }
      if !Before(key, candidate[..KEY_LEN]) {
        return at, false;
      }
      at := at + 1;
    }
    duplicate := false;
  }

  lemma KeyInBuffer(out: array<Octet>, rows: seq<Row>, at: nat)
    requires at < |rows| && Holds(out, rows)
    ensures var o := HEADER_LEN + PAIR_LEN * at; out[o..o + KEY_LEN] == Key(rows[at])
  {
    hide RowBytes, Packed;
    PackedAt(rows, at);
    var o := HEADER_LEN + PAIR_LEN * at;
    SubSlice(out[..], HEADER_LEN, HEADER_LEN + PAIR_LEN * |rows|, PAIR_LEN * at, PAIR_LEN * (at + 1));
    SubSlice(out[..], o, o + PAIR_LEN, 0, KEY_LEN);
  }

  /** Makes room by moving the tail up one pair, and writes the candidate there. */
  method InsertPair(out: array<Octet>, count: nat, at: nat, candidate: Bytes)
    requires at <= count && |candidate| == PAIR_LEN && HEADER_LEN + PAIR_LEN * (count + 1) <= out.Length
    modifies out
    ensures var hi := HEADER_LEN + PAIR_LEN * count;
            var was := old(out[HEADER_LEN..hi]);
            out[HEADER_LEN..hi + PAIR_LEN] == was[..PAIR_LEN * at] + candidate + was[PAIR_LEN * at..]
  {
    ghost var hi := HEADER_LEN + PAIR_LEN * count;
    ghost var was := out[HEADER_LEN..hi];
    MovePairs(out, HEADER_LEN + PAIR_LEN * at, HEADER_LEN + PAIR_LEN * count, candidate);
    ghost var now := out[HEADER_LEN..hi + PAIR_LEN];
    RoomMade(was, now, PAIR_LEN * at, candidate);
  }

  method MovePairs(out: array<Octet>, mid: nat, hi: nat, candidate: Bytes)
    requires mid <= hi && |candidate| == PAIR_LEN && hi + PAIR_LEN <= out.Length
    modifies out
    ensures forall k :: 0 <= k < mid ==> out[k] == old(out[k])
    ensures forall k :: mid <= k < mid + PAIR_LEN ==> out[k] == candidate[k - mid]
    ensures forall k :: mid + PAIR_LEN <= k < hi + PAIR_LEN ==> out[k] == old(out[k - PAIR_LEN])
  {
    forall k | mid <= k < hi {
      out[k + PAIR_LEN] := out[k];
    }
    forall k | 0 <= k < PAIR_LEN {
      out[mid + k] := candidate[k];
    }
  }

  lemma RoomMade(was: Bytes, now: Bytes, m: nat, candidate: Bytes)
    requires m <= |was| && |candidate| == PAIR_LEN && |now| == |was| + PAIR_LEN
    requires forall k :: 0 <= k < m ==> now[k] == was[k]
    requires forall k :: m <= k < m + PAIR_LEN ==> now[k] == candidate[k - m]
    requires forall k :: m + PAIR_LEN <= k < |now| ==> now[k] == was[k - PAIR_LEN]
    ensures now == was[..m] + candidate + was[m..]
  {
  }

  /** One entry of the store. */
  method IssueOne(e: Held, out: array<Octet>, ghost rows: seq<Row>, count: nat) returns (n: nat)
    requires count == |rows| && Holds(out, rows) && WholeLen(count + 1) <= out.Length
    modifies out
    ensures n == |WithRow(rows, RowFor(e))| && Holds(out, WithRow(rows, RowFor(e)))
  {
    hide RowBytes, Packed, Before, Key;
    var candidate := RowBytes(RowFor(e));
    var at, duplicate := FindPlace(out, rows, count, candidate, RowFor(e));
    if duplicate {
      return count;
    }
    InsertPair(out, count, at, candidate);
    PackedWithRow(rows, at, RowFor(e));
    n := count + 1;
  }

  /** The buffer's body is what is signed; `sign` answers none when it refuses. */
  method Issue(issuer: Id32, s: seq<Held>, sign: Bytes -> Result<Signature>, out: array<Octet>) returns (r: Result<nat>)
    modifies out
    ensures out.Length < MIN_LEN ==> r == Err(Malformed)
    ensures out.Length >= MIN_LEN ==>
              match Issued(s, issuer, out.Length)
              case Err(e) => r == Err(e)
              case Ok(rows) =>
                |rows| <= MAX_PAIRS && WholeLen(|rows|) <= out.Length &&
                match sign(BodyOf(issuer, rows))
                case Err(_) => r == Err(BadSignature) && forall k :: 0 <= k < WholeLen(|rows|) ==> out[k] == 0
                case Ok(sig) => r == Ok(WholeLen(|rows|)) && out[..WholeLen(|rows|)] == Whole(issuer, rows, sig)
  {
    hide WithRow, BodyOf, Packed, RowFor, Whole;
    if out.Length < MIN_LEN {
      return Err(Malformed);
    }
    var sorted := Sort(issuer, s, out);
    if sorted.Err? {
      return Err(sorted.error);
    }
    var count := sorted.value;
    ghost var rows := Issued(s, issuer, out.Length).value;
    IssuedCanonical(s, issuer, out.Length);
    r := Seal(issuer, rows, count, sign, out);
  }

  /** Sorts the issuer's entries into the buffer. */
  method Sort(issuer: Id32, s: seq<Held>, out: array<Octet>) returns (r: Result<nat>)
    requires out.Length >= MIN_LEN
    modifies out
    ensures match Issued(s, issuer, out.Length)
            case Err(e) => r == Err(e)
            case Ok(rows) => r == Ok(|rows|) && Holds(out, rows)
  {
    hide WithRow, RowFor;
    var count := 0;
    for i := 0 to |s|
      invariant var was := Issued(s[..i], issuer, out.Length);
                was.Ok? && count == |was.value| && Holds(out, was.value)
    {
      ghost var rows := Issued(s[..i], issuer, out.Length).value;
      assert s[..i + 1][..i] == s[..i];
      if s[i].issuer != issuer {
        continue;
      }
      if count >= MAX_PAIRS {
        RefusalStands(s, i + 1, issuer, out.Length);
        return Err(Shape);
      }
      if out.Length < WholeLen(count + 1) {
        RefusalStands(s, i + 1, issuer, out.Length);
        return Err(Malformed);
      }
      count := IssueOne(s[i], out, rows, count);
    }
    assert s[..|s|] == s;
    r := Ok(count);
  }

  lemma {:induction false} RefusalStands(s: seq<Held>, n: nat, issuer: Id32, cap: nat)
    requires n <= |s| && Issued(s[..n], issuer, cap).Err?
    ensures Issued(s, issuer, cap) == Issued(s[..n], issuer, cap)
    decreases |s| - n
  {
    hide WithRow, RowFor;
    if n == |s| {
      assert s[..n] == s;
    } else {
      assert s[..n + 1][..n] == s[..n];
      RefusalStands(s, n + 1, issuer, cap);
    }
  }

  /** Writes the header, opens what was written, and signs it; a refused signing leaves nothing behind. */
  method Seal(issuer: Id32, ghost rows: seq<Row>, count: nat, sign: Bytes -> Result<Signature>, out: array<Octet>)
    returns (r: Result<nat>)
    requires count == |rows| <= MAX_PAIRS && WholeLen(count) <= out.Length && Holds(out, rows) && Canonical(rows)
    modifies out
    ensures match sign(BodyOf(issuer, rows))
            case Err(_) => r == Err(BadSignature) && forall k :: 0 <= k < WholeLen(count) ==> out[k] == 0
            case Ok(sig) => r == Ok(WholeLen(count)) && out[..WholeLen(count)] == Whole(issuer, rows, sig)
  {
    hide Packed, Canonical, Opens;
    var body, len := HEADER_LEN + PAIR_LEN * count, WholeLen(count);
    var head := Head(issuer, count);
    Write(out, 0, head);
    assert out[..body] == BodyOf(issuer, rows) by {
      assert out[..body] == out[..HEADER_LEN] + out[HEADER_LEN..body];
    }
    Write(out, body, seq(SIG_LEN, _ => 0));
    assert out[..len] == out[..body] + out[body..len];
    var accepted := Open(out[..len]);
    OpensIffCanonical(issuer, rows, seq(SIG_LEN, _ => 0));
    assert accepted;
    var signed := sign(out[..body]);
    if signed.Err? {
      Write(out, 0, seq(len, _ => 0));
      return Err(BadSignature);
    }
    Write(out, body, signed.value);
    assert out[..len] == out[..body] + out[body..len];
    r := Ok(len);
  }

  method Write(out: array<Octet>, at: nat, bytes: Bytes)
    requires at + |bytes| <= out.Length
    modifies out
    ensures out[at..at + |bytes|] == bytes && out[..at] == old(out[..at])
    ensures forall k :: at + |bytes| <= k < out.Length ==> out[k] == old(out[k])
  {
    forall k | 0 <= k < |bytes| {
      out[at + k] := bytes[k];
    }
  }

  // ---- encoding given rows -----------------------------------------------------------------------------------

  /** Whether the rows are canonical, comparing capability first and grantee then. */
  method RowsCanonical(rows: seq<Row>) returns (yes: bool)
    ensures yes == Canonical(rows)
  {
    hide Before;
    for i := 0 to |rows|
      invariant forall j :: 0 <= j < i ==> StateOk(rows[j])
    {
      if !StateOk(rows[i]) {
        return false;
      }
    }
    var i := 1;
    while i < |rows|
      invariant i >= 1 && forall j :: 0 < j < i && j < |rows| ==> Before(Keys(rows)[j - 1], Keys(rows)[j])
    {
      var a, b := rows[i - 1], rows[i];
      KeyDecides(a.cap, a.grantee, b.cap, b.grantee);
      if !(Before(a.cap, b.cap) || (a.cap == b.cap && Before(a.grantee, b.grantee))) {
        assert !Before(Keys(rows)[i - 1], Keys(rows)[i]);
        return false;
      }
      i := i + 1;
    }
    yes := true;
  }

  /** Lays out a manifest unsigned. It refuses what a receiver would. */
  method Encode(issuer: Id32, rows: seq<Row>, out: array<Octet>) returns (r: Result<nat>)
    modifies out
    ensures r == if |rows| > MAX_PAIRS then Err(Shape)
                 else if out.Length < WholeLen(|rows|) then Err(Malformed)
                 else if !Canonical(rows) then Err(Shape) else Ok(WholeLen(|rows|))
    ensures r.Ok? ==> out[..r.value] == Whole(issuer, rows, seq(SIG_LEN, _ => 0)) && Opens(out[..r.value])
    ensures r.Ok? ==> forall k :: r.value <= k < out.Length ==> out[k] == old(out[k])
    ensures r.Err? ==> out[..] == old(out[..])
  {
    hide Canonical, Packed, Opens, RowBytes;
    if |rows| > MAX_PAIRS {
      return Err(Shape);
    }
    if out.Length < WholeLen(|rows|) {
      return Err(Malformed);
    }
    var canonical := RowsCanonical(rows);
    if !canonical {
      return Err(Shape);
    }
    var body, len := HEADER_LEN + PAIR_LEN * |rows|, WholeLen(|rows|);
    var head := Head(issuer, |rows|);
    Write(out, 0, head);
    WriteRows(rows, out);
    assert out[..body] == out[..HEADER_LEN] + out[HEADER_LEN..body];
    Write(out, body, seq(SIG_LEN, _ => 0));
    assert out[..len] == out[..body] + out[body..len];
    OpensIffCanonical(issuer, rows, seq(SIG_LEN, _ => 0));
    r := Ok(len);
  }

  method WriteRows(rows: seq<Row>, out: array<Octet>)
    requires HEADER_LEN + PAIR_LEN * |rows| <= out.Length
    modifies out
    ensures Holds(out, rows) && out[..HEADER_LEN] == old(out[..HEADER_LEN])
    ensures forall k :: HEADER_LEN + PAIR_LEN * |rows| <= k < out.Length ==> out[k] == old(out[k])
  {
    hide RowBytes;
    for i := 0 to |rows|
      invariant Holds(out, rows[..i]) && out[..HEADER_LEN] == old(out[..HEADER_LEN])
      invariant forall k :: HEADER_LEN + PAIR_LEN * i <= k < out.Length ==> out[k] == old(out[k])
    {
      var o := HEADER_LEN + PAIR_LEN * i;
      ghost var was := out[..o];
      Write(out, o, RowBytes(rows[i]));
      assert out[..o] == was && out[HEADER_LEN..o] == was[HEADER_LEN..] && out[..HEADER_LEN] == was[..HEADER_LEN];
      assert out[HEADER_LEN..o + PAIR_LEN] == out[HEADER_LEN..o] + out[o..o + PAIR_LEN];
      assert rows[..i + 1][..i] == rows[..i];
    }
    assert rows[..|rows|] == rows;
  }
}
