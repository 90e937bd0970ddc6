/** What a host knows it is missing, chain/manifest.c: the deficit table, and the marker that says the table fell short. */
module Deficit {
  import opened ByteOrder
  import opened ManifestForm
  import opened ManifestIssue

  datatype Outcome = Admitted | UnknownIssuer | SignatureRefused | DeficitFull

  /** A pair some issuer named and this host has yet to fetch. */
  datatype Missing = Missing(issuer: Id32, cap: Id32, grantee: Id32)

  /** A followed issuer: the largest manifest admitted from it, and whether a pair of its could not be recorded. */
  datatype Followed = Followed(issuer: Id32, pairsSeen: nat, overflowed: bool)

  datatype State = State(issuers: seq<Followed>, deficit: seq<Missing>)

  datatype Limits = Limits(issuers: nat, deficit: nat)

  // ---- being behind about a pair ------------------------------------------------------------------------

  predicate About(e: Held, issuer: Id32, r: Row) {
    e.issuer == issuer && e.cap == r.cap && e.grantee == r.grantee
  }

  /** The store's entry for the pair is the issuer's, in its state or ahead of it. */
  predicate Matched(store: seq<Held>, issuer: Id32, r: Row) {
    if |store| == 0 then false
    else if About(store[0], issuer, r) then store[0].id == r.id && !(r.state == WITHDRAWN && !store[0].withdrawn)
    else Matched(store[1..], issuer, r)
  }

  /** With one entry per triple: some entry of the pair has the issuer's record, and has cleared it if the issuer has. */
  lemma {:induction false} MatchedIs(store: seq<Held>, issuer: Id32, r: Row)
    requires OnePerTriple(store)
    ensures Matched(store, issuer, r) <==>
            exists e :: e in store && About(e, issuer, r) && e.id == r.id && (r.state == WITHDRAWN ==> e.withdrawn)
  {
    if |store| > 0 {
      MatchedIs(store[1..], issuer, r);
      assert forall e :: e in store <==> e == store[0] || e in store[1..];
    }
  }

  /** A store owes itself nothing: each row issued from it is matched by it. */
  lemma IssuedIsMatched(store: seq<Held>, issuer: Id32, cap: nat, row: Row)
    requires OnePerTriple(store) && Issued(store, issuer, cap).Ok? && row in Issued(store, issuer, cap).value
    ensures Matched(store, issuer, row)
  {
    hide Issued, Matched;
    RowsAreEntries(store, issuer, cap, row);
    MatchedIs(store, issuer, row);
  }

  /** An entry with another id matches no row of the pair, and a live one no row that withdraws it. */
  lemma OtherIsUnmatched(store: seq<Held>, issuer: Id32, row: Row, e: Held)
    requires OnePerTriple(store) && e in store && About(e, issuer, row)
    requires e.id != row.id || (row.state == WITHDRAWN && !e.withdrawn)
    ensures !Matched(store, issuer, row)
  {
    hide Matched;
    MatchedIs(store, issuer, row);
    forall f | f in store && About(f, issuer, row)
      ensures f == e
    {
      var i :| 0 <= i < |store| && store[i] == e;
      var j :| 0 <= j < |store| && store[j] == f;
    }
  }

  function Want(issuer: Id32, r: Row): (m: Missing) {
    Missing(issuer, r.cap, r.grantee)
  }

  /** Nothing is owed about the row: it is matched, or listed as missing. */
  predicate Accounted(store: seq<Held>, deficit: seq<Missing>, issuer: Id32, r: Row) {
    Matched(store, issuer, r) || Want(issuer, r) in deficit
  }

  ghost predicate AllAccounted(store: seq<Held>, deficit: seq<Missing>, issuer: Id32, rows: seq<Row>) {
    forall i :: 0 <= i < |rows| ==> Accounted(store, deficit, issuer, rows[i])
  }

  // ---- one manifest, as a value ---------------------------------------------------------------------------

  /** The deficit after the first `n` rows. */
  function Listed(deficit: seq<Missing>, limit: nat, store: seq<Held>, issuer: Id32, rows: seq<Row>, n: nat): (d: seq<Missing>)
    requires n <= |rows|
  {
    if n == 0 then deficit
    else
      var before := Listed(deficit, limit, store, issuer, rows, n - 1);
      if Accounted(store, before, issuer, rows[n - 1]) || |before| >= limit then before
      else before + [Want(issuer, rows[n - 1])]
  }

  /** How many of the first `n` rows could not be recorded. */
  function Lost(deficit: seq<Missing>, limit: nat, store: seq<Held>, issuer: Id32, rows: seq<Row>, n: nat): (d: nat)
    requires n <= |rows|
  {
    if n == 0 then 0
    else
      var before := Listed(deficit, limit, store, issuer, rows, n - 1);
      Lost(deficit, limit, store, issuer, rows, n - 1) +
      if !Accounted(store, before, issuer, rows[n - 1]) && |before| >= limit then 1 else 0
  }

  function FindIssuer(issuers: seq<Followed>, issuer: Id32): (at: nat)
    ensures at <= |issuers|
    ensures at < |issuers| ==> issuers[at].issuer == issuer
    ensures forall i :: 0 <= i < at ==> issuers[i].issuer != issuer
  {
    if |issuers| == 0 || issuers[0].issuer == issuer then 0
    else
      var at := 1 + FindIssuer(issuers[1..], issuer);
      assert forall i :: 1 <= i < at ==> issuers[i] == issuers[1..][i - 1];
      at
  }

  /** The state after a followed issuer's manifest. */
  function Noted(s: State, limit: nat, store: seq<Held>, at: nat, rows: seq<Row>): (t: State)
    requires at < |s.issuers|
  {
    var f := s.issuers[at];
    var lost := Lost(s.deficit, limit, store, f.issuer, rows, |rows|);
    var reached := |rows| >= f.pairsSeen;
    State(
      s.issuers[at := f.(pairsSeen := if reached then |rows| else f.pairsSeen,
                         overflowed := lost > 0 || (f.overflowed && !reached))],
      Listed(s.deficit, limit, store, f.issuer, rows, |rows|))
  }

  // ---- the tables, in place -----------------------------------------------------------------------------------

  class Tables {
    const limits: Limits
    var issuers: seq<Followed>
    var deficit: seq<Missing>

    ghost function Value(): (s: State)
      reads this
    {
      State(issuers, deficit)
    }

    ghost predicate Valid()
      reads this
    {
      && |issuers| <= limits.issuers && |deficit| <= limits.deficit
      && (forall i, j :: 0 <= i < j < |issuers| ==> issuers[i].issuer != issuers[j].issuer)
      && (forall i, j :: 0 <= i < j < |deficit| ==> deficit[i] != deficit[j])
    }

    constructor (limits: Limits)
      ensures Valid() && Value() == State([], []) && this.limits == limits
    {
      this.limits, issuers, deficit := limits, [], [];
    }

    method Find(issuer: Id32) returns (at: nat)
      ensures at == FindIssuer(issuers, issuer)
    {
      at := 0;
      assert issuers[0..] == issuers;
      while at < |issuers| && issuers[at].issuer != issuer
        invariant 0 <= at <= |issuers| && FindIssuer(issuers, issuer) == at + FindIssuer(issuers[at..], issuer)
      {
        assert issuers[at..][1..] == issuers[at + 1..];
        at := at + 1;
      }
    }

    /** Following twice changes nothing; a full table refuses. */
    method Follow(issuer: Id32) returns (ok: bool)
      requires Valid()
      modifies this`issuers
      ensures Valid()
      ensures var at := FindIssuer(old(issuers), issuer);
              && ok == (at < |old(issuers)| || |old(issuers)| < limits.issuers)
              && issuers == if at < |old(issuers)| || !ok then old(issuers) else old(issuers) + [Followed(issuer, 0, false)]
    {
      var at := Find(issuer);
      if at < |issuers| {
        return true;
      }
      if |issuers| >= limits.issuers {
        return false;
      }
      issuers := issuers + [Followed(issuer, 0, false)];
      ok := true;
    }

    /** Admits a manifest; `signed` is whether its signature checks out under its own issuer. */
    method Admit(store: seq<Held>, issuer: Id32, rows: seq<Row>, signed: bool) returns (r: Outcome)
      requires Valid()
      modifies this
      ensures Valid()
      ensures var at := FindIssuer(old(issuers), issuer);
              if at == |old(issuers)| then r == UnknownIssuer && Value() == old(Value())
              else if !signed then r == SignatureRefused && Value() == old(Value())
              else
                && Value() == Noted(old(Value()), limits.deficit, store, at, rows)
                && r == if Lost(old(deficit), limits.deficit, store, issuer, rows, |rows|) > 0 then DeficitFull else Admitted
    {
      hide Listed, Lost;
      var at := Find(issuer);
      if at >= |issuers| {
        return UnknownIssuer;
      }
      if !signed {
        return SignatureRefused;
      }
      var dropped := ListRows(store, issuer, at, rows);
      if |rows| >= issuers[at].pairsSeen {
        issuers := issuers[at := issuers[at].(pairsSeen := |rows|)];
        if dropped == 0 {
          issuers := issuers[at := issuers[at].(overflowed := false)];
        }
      }
      r := if dropped > 0 then DeficitFull else Admitted;
    }

    /** Lists what is owed, row by row; a row that does not fit raises the marker and does not stop the rest. */
    method ListRows(store: seq<Held>, issuer: Id32, at: nat, rows: seq<Row>) returns (dropped: nat)
      requires Valid() && at < |issuers|
      modifies this
      ensures Valid()
      ensures deficit == Listed(old(deficit), limits.deficit, store, issuer, rows, |rows|)
      ensures dropped == Lost(old(deficit), limits.deficit, store, issuer, rows, |rows|)
      ensures issuers == old(issuers)[at := old(issuers)[at].(overflowed := old(issuers)[at].overflowed || dropped > 0)]
    {
      hide Accounted;
      dropped := 0;
      ghost var was, f := issuers, issuers[at];
      for i := 0 to |rows|
        invariant issuers == was[at := f.(overflowed := f.overflowed || dropped > 0)]
        invariant deficit == Listed(old(deficit), limits.deficit, store, issuer, rows, i)
        invariant dropped == Lost(old(deficit), limits.deficit, store, issuer, rows, i)
        invariant |deficit| <= limits.deficit && forall a, b :: 0 <= a < b < |deficit| ==> deficit[a] != deficit[b]
      {
        var accounted := IsAccounted(store, issuer, rows[i]);
        if accounted {
          continue;
        }
        if |deficit| >= limits.deficit {
          issuers := issuers[at := issuers[at].(overflowed := true)];
          dropped := dropped + 1;
          continue;
        }
        deficit := deficit + [Want(issuer, rows[i])];
      }
    }

    method IsAccounted(store: seq<Held>, issuer: Id32, row: Row) returns (yes: bool)
      ensures yes == Accounted(store, deficit, issuer, row)
      ensures !yes ==> Want(issuer, row) !in deficit
    {
      var i := 0;
      assert store[0..] == store;
      while i < |store| && !About(store[i], issuer, row)
        invariant i <= |store| && Matched(store, issuer, row) == Matched(store[i..], issuer, row)
      {
        assert store[i..][1..] == store[i + 1..];
        i := i + 1;
      }
      if i < |store| && store[i].id == row.id && !(row.state == WITHDRAWN && !store[i].withdrawn) {
        return true;
      }
      yes := Want(issuer, row) in deficit;
    }

    /** Takes a pair off the deficit, moving the tail down. */
    method Satisfy(m: Missing) returns (removed: nat)
      requires Valid()
      modifies this`deficit
      ensures Valid()
      ensures deficit == Without(old(deficit), m) && removed == |old(deficit)| - |deficit|
    {
      hide Without;
      removed := 0;
      var i := 0;
      assert deficit[0..] == deficit && deficit[..0] == [];
      while i < |deficit|
        invariant i <= |deficit| && |deficit| == |old(deficit)| - removed
        invariant Without(old(deficit), m) == deficit[..i] + Without(deficit[i..], m)
        invariant forall a, b :: 0 <= a < b < |deficit| ==> deficit[a] != deficit[b]
        decreases |deficit| - i
      {
        WithoutStep(deficit, i, m);
        if deficit[i] == m {
          ghost var was := deficit;
          deficit := deficit[..i] + deficit[i + 1..];
          assert deficit[..i] == was[..i] && deficit[i..] == was[i + 1..];
          removed := removed + 1;
        } else {
          i := i + 1;
        }
      }
      WithoutStep(deficit, i, m);
    }

    /** An issuer nobody follows is one whose deficit cannot be vouched for. */
    method Overflowed(issuer: Id32) returns (yes: bool)
      ensures yes == OverflowOf(issuers, issuer)
    {
      var at := Find(issuer);
      yes := at >= |issuers| || issuers[at].overflowed;
    }
  }

  predicate OverflowOf(issuers: seq<Followed>, issuer: Id32) {
    var at := FindIssuer(issuers, issuer);
    at < |issuers| ==> issuers[at].overflowed
  }

  function Without(d: seq<Missing>, m: Missing): (r: seq<Missing>) {
    if |d| == 0 then [] else if d[0] == m then Without(d[1..], m) else [d[0]] + Without(d[1..], m)
  }

  lemma WithoutStep(d: seq<Missing>, i: nat, m: Missing)
    requires i <= |d|
    ensures d[..i] + Without(d[i..], m) ==
            if i == |d| then d
            else if d[i] == m then d[..i] + Without(d[i + 1..], m) else d[..i + 1] + Without(d[i + 1..], m)
  {
    if i < |d| {
      assert d[i..][1..] == d[i + 1..];
    }
  }

  lemma WithoutIs(d: seq<Missing>, m: Missing)
    ensures forall x :: x in Without(d, m) <==> x in d && x != m
  {
  }

  /** Taking a pair off leaves what comes before it and what comes after, in order. */
  lemma {:induction false} WithoutKeepsOrder(a: seq<Missing>, b: seq<Missing>, m: Missing)
    requires m !in a && m !in b
    ensures Without(a + [m] + b, m) == a + b
  {
    hide Without;
    var d := a + [m] + b;
    if |a| == 0 {
      assert d[0] == m && d[1..] == b;
      WithoutFirst(d, m);
      WithoutNone(b, m);
    } else {
      assert d[0] == a[0] && d[1..] == a[1..] + [m] + b;
      WithoutFirst(d, m);
      WithoutKeepsOrder(a[1..], b, m);
      assert a + b == [a[0]] + (a[1..] + b);
    }
  }

  lemma WithoutFirst(d: seq<Missing>, m: Missing)
    requires |d| > 0
    ensures Without(d, m) == (if d[0] == m then [] else [d[0]]) + Without(d[1..], m)
  {
  }

  lemma WithoutNone(d: seq<Missing>, m: Missing)
    requires m !in d
    ensures Without(d, m) == d
  {
  }
}
