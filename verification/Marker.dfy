/** The overflow marker over whole runs, chain/manifest.c: when it is clear, what is owed is listed. */
module Marker {
  import opened Collections
  import opened ByteOrder
  import opened ManifestForm
  import opened ManifestIssue
  import opened Deficit

  // ---- one manifest --------------------------------------------------------------------------------------

  lemma ListedKeeps(d: seq<Missing>, limit: nat, store: seq<Held>, issuer: Id32, rows: seq<Row>, n: nat)
    requires n <= |rows|
    ensures forall m :: m in d ==> m in Listed(d, limit, store, issuer, rows, n)
  {
    hide Accounted;
  }

  /** Only what is owed is listed: each pair new to the table is of a row the store does not match. */
  lemma {:induction false} ListedOwed(d: seq<Missing>, limit: nat, store: seq<Held>, issuer: Id32, rows: seq<Row>, n: nat, m: Missing)
    requires n <= |rows| && m in Listed(d, limit, store, issuer, rows, n)
    ensures m in d || exists i :: 0 <= i < n && m == Missing(issuer, rows[i].cap, rows[i].grantee) && !Matched(store, issuer, rows[i])
  {
    hide Matched;
    if n > 0 && m in Listed(d, limit, store, issuer, rows, n - 1) {
      ListedOwed(d, limit, store, issuer, rows, n - 1, m);
    }
  }

  /** No row is lost exactly when every row is accounted for in what results. */
  lemma {:induction false} LostIff(d: seq<Missing>, limit: nat, store: seq<Held>, issuer: Id32, rows: seq<Row>, n: nat)
    requires n <= |rows|
    ensures var after := Listed(d, limit, store, issuer, rows, n);
            if Lost(d, limit, store, issuer, rows, n) == 0 then forall i :: 0 <= i < n ==> Accounted(store, after, issuer, rows[i])
            else |after| >= limit && exists i :: 0 <= i < n && !Accounted(store, after, issuer, rows[i])
  {
    hide Matched;
    if n > 0 {
      LostIff(d, limit, store, issuer, rows, n - 1);
    }
  }

  /** The marker after a manifest, exactly: up when some row of it is unaccounted for, or when it was up and the manifest
      falls short of the largest seen. */
  lemma MarkerExact(s: State, limit: nat, store: seq<Held>, at: nat, rows: seq<Row>)
    requires at < |s.issuers|
    ensures var t, f := Noted(s, limit, store, at, rows), s.issuers[at];
            t.issuers[at].overflowed <==>
              !AllAccounted(store, t.deficit, f.issuer, rows) || (f.overflowed && |rows| < f.pairsSeen)
  {
    hide Accounted, Listed, Lost;
    LostIff(s.deficit, limit, store, s.issuers[at].issuer, rows, |rows|);
  }

  /** A manifest smaller than one already seen clears nothing. */
  lemma RollbackClearsNothing(s: State, limit: nat, store: seq<Held>, at: nat, rows: seq<Row>)
    requires at < |s.issuers| && |rows| < s.issuers[at].pairsSeen && s.issuers[at].overflowed
    ensures var t := Noted(s, limit, store, at, rows); t.issuers[at] == s.issuers[at]
  {
    hide Listed, Lost;
  }

  // ---- runs ------------------------------------------------------------------------------------------------

  /** What happens: an issuer is followed; a manifest is offered; or a record about a pair is admitted, which leaves the
      store as `store` and takes the pair off the deficit when `drained`. */
  datatype Event =
    | Follows(issuer: Id32)
    | Offered(issuer: Id32, rows: seq<Row>, signed: bool)
    | Delivered(missing: Missing, drained: bool, store: seq<Held>)

  /** The tables and the store beside them. */
  datatype World = World(state: State, store: seq<Held>)

  function After(w: World, limits: Limits, ev: Event): (t: World) {
    var s := w.state;
    match ev
    case Follows(issuer) =>
      if FindIssuer(s.issuers, issuer) < |s.issuers| || |s.issuers| >= limits.issuers then w
      else w.(state := s.(issuers := s.issuers + [Followed(issuer, 0, false)]))
    case Offered(issuer, rows, signed) =>
      var at := FindIssuer(s.issuers, issuer);
      if at == |s.issuers| || !signed then w else w.(state := Noted(s, limits.deficit, w.store, at, rows))
    case Delivered(missing, drained, store) =>
      World(if drained then s.(deficit := Without(s.deficit, missing)) else s, store)
  }

  /** The world a run from empty tables reaches. */
  function Reached(limits: Limits, store: seq<Held>, run: seq<Event>): (w: World) {
    if |run| == 0 then World(State([], []), store)
    else After(Reached(limits, store, run[..|run| - 1]), limits, run[|run| - 1])
  }

  /** The event is a manifest of the issuer that is taken up. */
  predicate TakesUp(s: State, ev: Event, issuer: Id32) {
    ev.Offered? && ev.issuer == issuer && ev.signed && FindIssuer(s.issuers, issuer) < |s.issuers|
  }

  function SeenBy(s: State, issuer: Id32): (n: nat) {
    var at := FindIssuer(s.issuers, issuer);
    if at < |s.issuers| then s.issuers[at].pairsSeen else 0
  }

  predicate Reaches(s: State, ev: Event, issuer: Id32) {
    TakesUp(s, ev, issuer) && |ev.rows| >= SeenBy(s, issuer)
  }

  /** The manifest that last reached the high-water mark. */
  function Mark(limits: Limits, store: seq<Held>, run: seq<Event>, issuer: Id32): (rows: seq<Row>) {
    if |run| == 0 then []
    else
      var s, ev := Reached(limits, store, run[..|run| - 1]).state, run[|run| - 1];
      if Reaches(s, ev, issuer) then ev.rows else Mark(limits, store, run[..|run| - 1], issuer)
  }

  // ---- the high-water mark ------------------------------------------------------------------------------------

  lemma FindKept(s: seq<Followed>, t: seq<Followed>, issuer: Id32)
    requires |t| >= |s| && forall i :: 0 <= i < |s| ==> t[i].issuer == s[i].issuer
    requires FindIssuer(s, issuer) < |s|
    ensures FindIssuer(t, issuer) == FindIssuer(s, issuer)
  {
  }

  lemma FindNew(s: seq<Followed>, f: Followed, issuer: Id32)
    requires FindIssuer(s, issuer) == |s|
    ensures FindIssuer(s + [f], issuer) == if f.issuer == issuer then |s| else |s| + 1
  {
    var t := s + [f];
    assert t[|s|] == f && forall i :: 0 <= i < |s| ==> t[i] == s[i];
  }

  /** What an event does to an issuer's own line of the table. */
  lemma LineAfter(w: World, limits: Limits, ev: Event, issuer: Id32)
    ensures var s, t := w.state, After(w, limits, ev).state;
            && (Reaches(s, ev, issuer) ==> SeenBy(t, issuer) == |ev.rows|)
            && (!Reaches(s, ev, issuer) ==> SeenBy(t, issuer) == SeenBy(s, issuer))
            && (!TakesUp(s, ev, issuer) ==> OverflowOf(t.issuers, issuer) == OverflowOf(s.issuers, issuer) || SeenBy(s, issuer) == 0)
  {
    hide FindIssuer, Listed, Lost;
    var s, t := w.state, After(w, limits, ev).state;
    if ev.Follows? {
      if FindIssuer(s.issuers, issuer) < |s.issuers| {
        FindKept(s.issuers, s.issuers + [Followed(ev.issuer, 0, false)], issuer);
      } else {
        FindNew(s.issuers, Followed(ev.issuer, 0, false), issuer);
      }
    } else if ev.Offered? && FindIssuer(s.issuers, ev.issuer) < |s.issuers| && ev.signed {
      if FindIssuer(s.issuers, issuer) < |s.issuers| {
        FindKept(s.issuers, t.issuers, issuer);
      } else if FindIssuer(t.issuers, issuer) < |t.issuers| {
        FindKept(t.issuers, s.issuers, issuer);
      }
    }
  }

  /** The high-water mark is the size of the manifest that last reached it. */
  lemma {:induction false} SeenIsMark(limits: Limits, store: seq<Held>, run: seq<Event>, issuer: Id32)
    ensures SeenBy(Reached(limits, store, run).state, issuer) == |Mark(limits, store, run, issuer)|
  {
    hide After, SeenBy, TakesUp;
    if |run| == 0 {
      NothingSeen(issuer);
    } else {
      var n := |run| - 1;
      SeenIsMark(limits, store, run[..n], issuer);
      LineAfter(Reached(limits, store, run[..n]), limits, run[n], issuer);
    }
  }

  lemma NothingSeen(issuer: Id32)
    ensures SeenBy(State([], []), issuer) == 0
  {
  }

  // ---- the marker over every run --------------------------------------------------------------------------------

  /** What a clear marker promises about a manifest. */
  ghost predicate Honest(w: World, issuer: Id32, rows: seq<Row>) {
    !OverflowOf(w.state.issuers, issuer) ==> AllAccounted(w.store, w.state.deficit, issuer, rows)
  }

  /** An admission changes nothing the store says about other pairs. */
  ghost predicate OnlyAbout(before: seq<Held>, after: seq<Held>, m: Missing) {
    forall issuer: Id32, r: Row :: Want(issuer, r) != m ==> Matched(after, issuer, r) == Matched(before, issuer, r)
  }

  /** What an admission leaves owed: each row about its pair is matched by the store after it, or still listed. */
  ghost predicate Keeps(w: World, ev: Event, issuer: Id32, rows: seq<Row>)
    requires ev.Delivered?
  {
    forall i :: 0 <= i < |rows| && Want(issuer, rows[i]) == ev.missing ==>
      Matched(ev.store, issuer, rows[i]) || (!ev.drained && ev.missing in w.state.deficit)
  }

  /** An admission keeps a clear marker honest exactly when the mark has no row for its pair, or the store after it matches the
      row, or it drained nothing and the pair is listed. */
  lemma DeliveryExact(w: World, limits: Limits, ev: Event, issuer: Id32, rows: seq<Row>)
    requires ev.Delivered? && OnlyAbout(w.store, ev.store, ev.missing) && AllAccounted(w.store, w.state.deficit, issuer, rows)
    ensures var t := After(w, limits, ev);
            AllAccounted(t.store, t.state.deficit, issuer, rows) <==> Keeps(w, ev, issuer, rows)
  {
    hide Matched;
    WithoutIs(w.state.deficit, ev.missing);
    var t := After(w, limits, ev);
    forall i | 0 <= i < |rows|
      ensures Accounted(t.store, t.state.deficit, issuer, rows[i]) <==>
              (Want(issuer, rows[i]) == ev.missing ==>
                 Matched(ev.store, issuer, rows[i]) || (!ev.drained && ev.missing in w.state.deficit))
    {
      assert Accounted(w.store, w.state.deficit, issuer, rows[i]);
      if Want(issuer, rows[i]) != ev.missing {
        assert Matched(ev.store, issuer, rows[i]) == Matched(w.store, issuer, rows[i]);
      }
    }
  }

  /** The admissions of a run: each about one pair, and none that leaves a row of the mark of the time unaccounted for. */
  ghost predicate KeptAt(limits: Limits, store: seq<Held>, run: seq<Event>, issuer: Id32, i: nat)
    requires i < |run|
  {
    var w := Reached(limits, store, run[..i]);
    run[i].Delivered? ==>
      && OnlyAbout(w.store, run[i].store, run[i].missing)
      && (!OverflowOf(w.state.issuers, issuer) ==> Keeps(w, run[i], issuer, Mark(limits, store, run[..i], issuer)))
  }

  ghost predicate AllKept(limits: Limits, store: seq<Held>, run: seq<Event>, issuer: Id32) {
    forall i :: 0 <= i < |run| ==> KeptAt(limits, store, run, issuer, i)
  }

  lemma NothingOwed(w: World, issuer: Id32)
    ensures Honest(w, issuer, [])
  {
  }

  lemma FollowKeeps(w: World, limits: Limits, who: Id32, issuer: Id32, mark: seq<Row>)
    requires Honest(w, issuer, mark) && SeenBy(w.state, issuer) == |mark|
    ensures Honest(After(w, limits, Follows(who)), issuer, mark)
  {
    hide AllAccounted, FindIssuer;
    LineAfter(w, limits, Follows(who), issuer);
    if mark == [] {
      NothingOwed(After(w, limits, Follows(who)), issuer);
    }
  }

  lemma OfferOther(w: World, limits: Limits, ev: Event, issuer: Id32, mark: seq<Row>)
    requires Honest(w, issuer, mark) && SeenBy(w.state, issuer) == |mark| && ev.Offered? && !TakesUp(w.state, ev, issuer)
    ensures Honest(After(w, limits, ev), issuer, mark)
  {
    hide FindIssuer, Matched, Listed, Lost;
    LineAfter(w, limits, ev, issuer);
    var s, t := w.state, After(w, limits, ev);
    if FindIssuer(s.issuers, ev.issuer) < |s.issuers| && ev.signed {
      ListedKeeps(s.deficit, limits.deficit, w.store, ev.issuer, ev.rows, |ev.rows|);
    }
    if mark == [] {
      NothingOwed(t, issuer);
    }
  }

  lemma OfferOwn(w: World, limits: Limits, ev: Event, issuer: Id32, mark: seq<Row>)
    requires Honest(w, issuer, mark) && TakesUp(w.state, ev, issuer)
    ensures Honest(After(w, limits, ev), issuer, if Reaches(w.state, ev, issuer) then ev.rows else mark)
  {
    hide FindIssuer, Matched, Listed, Lost;
    var s := w.state;
    var at := FindIssuer(s.issuers, issuer);
    var t := Noted(s, limits.deficit, w.store, at, ev.rows);
    MarkerExact(s, limits.deficit, w.store, at, ev.rows);
    ListedKeeps(s.deficit, limits.deficit, w.store, issuer, ev.rows, |ev.rows|);
    FindKept(s.issuers, t.issuers, issuer);
  }

  lemma DeliveryKeeps(w: World, limits: Limits, ev: Event, issuer: Id32, mark: seq<Row>)
    requires ev.Delivered? && OnlyAbout(w.store, ev.store, ev.missing) && Honest(w, issuer, mark)
    requires !OverflowOf(w.state.issuers, issuer) ==> Keeps(w, ev, issuer, mark)
    ensures Honest(After(w, limits, ev), issuer, mark)
  {
    hide AllAccounted, OnlyAbout, Keeps, FindIssuer;
    if !OverflowOf(w.state.issuers, issuer) {
      DeliveryExact(w, limits, ev, issuer, mark);
    }
  }

  /** Over every run, other issuers sharing the table and the store changing underneath: a clear marker means that every row of
      the manifest that last reached the high-water mark is matched by the store or listed, so long as the admissions kept it. */
  lemma {:induction false} MarkerHonest(limits: Limits, store: seq<Held>, run: seq<Event>, issuer: Id32)
    requires AllKept(limits, store, run, issuer)
    ensures Honest(Reached(limits, store, run), issuer, Mark(limits, store, run, issuer))
  {
    hide Honest, After, OnlyAbout, Keeps, TakesUp, SeenBy;
    if |run| == 0 {
      NothingOwed(Reached(limits, store, run), issuer);
    } else {
      var n := |run| - 1;
      KeptBefore(limits, store, run, issuer);
      MarkerHonest(limits, store, run[..n], issuer);
      SeenIsMark(limits, store, run[..n], issuer);
      assert KeptAt(limits, store, run, issuer, n);
      var w, mark, ev := Reached(limits, store, run[..n]), Mark(limits, store, run[..n], issuer), run[n];
      if TakesUp(w.state, ev, issuer) {
        OfferOwn(w, limits, ev, issuer, mark);
      } else {
        match ev
        case Follows(who) => FollowKeeps(w, limits, who, issuer, mark);
        case Delivered(_, _, _) => DeliveryKeeps(w, limits, ev, issuer, mark);
        case Offered(_, _, _) => OfferOther(w, limits, ev, issuer, mark);
      }
    }
  }

  lemma KeptBefore(limits: Limits, store: seq<Held>, run: seq<Event>, issuer: Id32)
    requires |run| > 0 && AllKept(limits, store, run, issuer)
    ensures AllKept(limits, store, run[..|run| - 1], issuer)
  {
    hide Reached, Mark, OnlyAbout, Keeps, OverflowOf;
    var n := |run| - 1;
    forall i | 0 <= i < n
      ensures KeptAt(limits, store, run[..n], issuer, i)
    {
      assert KeptAt(limits, store, run, issuer, i);
      assert run[..n][..i] == run[..i] && run[..n][i] == run[i];
    }
  }

  // ---- what one manifest says of another's rows -------------------------------------------------------------------

  /** The manifest names the row's pair with the same record, and withdraws it if the row does. */
  predicate CoversBy(q: Row, r: Row) {
    q.cap == r.cap && q.grantee == r.grantee && q.id == r.id && (r.state == WITHDRAWN ==> q.state == WITHDRAWN)
  }

  ghost predicate Covers(rows: seq<Row>, r: Row) {
    exists i :: 0 <= i < |rows| && CoversBy(rows[i], r)
  }

  ghost predicate CoversAll(rows: seq<Row>, other: seq<Row>) {
    forall i :: 0 <= i < |other| ==> Covers(rows, other[i])
  }

  lemma MatchedCovers(store: seq<Held>, issuer: Id32, q: Row, r: Row)
    requires CoversBy(q, r) && Matched(store, issuer, q)
    ensures Matched(store, issuer, r)
  {
  }

  /** A manifest accounted for accounts for every row it covers. */
  lemma CoveredAccounted(store: seq<Held>, deficit: seq<Missing>, issuer: Id32, rows: seq<Row>, r: Row)
    requires AllAccounted(store, deficit, issuer, rows) && Covers(rows, r)
    ensures Accounted(store, deficit, issuer, r)
  {
    hide Matched;
    var i :| 0 <= i < |rows| && CoversBy(rows[i], r);
    assert Accounted(store, deficit, issuer, rows[i]);
    if Matched(store, issuer, rows[i]) {
      MatchedCovers(store, issuer, rows[i], r);
    }
  }

  /** The store that holds exactly what a manifest says. */
  function StoreOf(issuer: Id32, rows: seq<Row>): (s: seq<Held>)
    ensures |s| == |rows|
  {
    seq(|rows|, i requires 0 <= i < |rows| =>
      Held(issuer, rows[i].cap, rows[i].grantee, rows[i].id, rows[i].state == WITHDRAWN))
  }

  lemma StoreOfManifest(issuer: Id32, rows: seq<Row>, r: Row)
    requires Canonical(rows)
    ensures var s := StoreOf(issuer, rows);
            OnePerTriple(s) && AllAccounted(s, [], issuer, rows) && (Accounted(s, [], issuer, r) ==> Covers(rows, r))
  {
    hide Matched, Canonical;
    var s := StoreOf(issuer, rows);
    StoreOfTriples(issuer, rows);
    forall i | 0 <= i < |rows|
      ensures Matched(s, issuer, rows[i])
    {
      MatchedIs(s, issuer, rows[i]);
      assert s[i] in s;
    }
    MatchedIs(s, issuer, r);
    if Matched(s, issuer, r) {
      var e :| e in s && About(e, issuer, r) && e.id == r.id && (r.state == WITHDRAWN ==> e.withdrawn);
      var i :| 0 <= i < |s| && s[i] == e;
      assert CoversBy(rows[i], r);
    }
  }

  lemma StoreOfTriples(issuer: Id32, rows: seq<Row>)
    requires Canonical(rows)
    ensures OnePerTriple(StoreOf(issuer, rows))
  {
    var s := StoreOf(issuer, rows);
    forall i, j | 0 <= i < j < |s|
      ensures !(s[i].cap == s[j].cap && s[i].grantee == s[j].grantee)
    {
      if s[i].cap == s[j].cap && s[i].grantee == s[j].grantee {
        assert Keys(rows)[i] == Keys(rows)[j];
        AscendingDistinct(Keys(rows), i, j);
      }
    }
  }

  /** Exactly when a marker that one manifest cleared also answers for a row of another: for every store and deficit in which
      the manifest is accounted for the row is, if and only if the manifest covers the row. */
  lemma CoversIff(issuer: Id32, rows: seq<Row>, r: Row)
    requires Canonical(rows)
    ensures Covers(rows, r) <==>
            forall store, deficit :: OnePerTriple(store) && AllAccounted(store, deficit, issuer, rows) ==>
              Accounted(store, deficit, issuer, r)
  {
    hide Matched, Canonical, OnePerTriple, StoreOf, AllAccounted, Covers, Accounted;
    if Covers(rows, r) {
      forall store, deficit | OnePerTriple(store) && AllAccounted(store, deficit, issuer, rows)
        ensures Accounted(store, deficit, issuer, r)
      {
        CoveredAccounted(store, deficit, issuer, rows, r);
      }
    } else {
      StoreOfManifest(issuer, rows, r);
      assert !Accounted(StoreOf(issuer, rows), [], issuer, r);
    }
  }

  lemma CoversTransitive(a: seq<Row>, b: seq<Row>, c: seq<Row>)
    requires CoversAll(a, b) && CoversAll(b, c)
    ensures CoversAll(a, c)
  {
    forall i | 0 <= i < |c|
      ensures Covers(a, c[i])
    {
      assert Covers(b, c[i]);
      var j :| 0 <= j < |b| && CoversBy(b[j], c[i]);
      assert Covers(a, b[j]);
      var k :| 0 <= k < |a| && CoversBy(a[k], b[j]);
      assert CoversBy(a[k], c[i]);
    }
  }

  lemma CoversItself(a: seq<Row>)
    ensures CoversAll(a, a)
  {
    forall i | 0 <= i < |a|
      ensures Covers(a, a[i])
    {
      assert CoversBy(a[i], a[i]);
    }
  }

  // ---- every manifest taken up ------------------------------------------------------------------------------------

  predicate OfferedBy(ev: Event, issuer: Id32) {
    ev.Offered? && ev.issuer == issuer
  }

  /** The manifest at `i` of the run is taken up. */
  predicate TakenUp(limits: Limits, store: seq<Held>, run: seq<Event>, issuer: Id32, i: nat)
    requires i < |run|
  {
    TakesUp(Reached(limits, store, run[..i]).state, run[i], issuer)
  }

  /** The honest marker: over any run, a clear marker means that every row of every manifest taken up that the mark covers is
      matched by the store or listed in the deficit. */
  lemma ClearMeansAccounted(limits: Limits, store: seq<Held>, run: seq<Event>, issuer: Id32, i: nat)
    requires AllKept(limits, store, run, issuer) && i < |run| && TakenUp(limits, store, run, issuer, i)
    requires CoversAll(Mark(limits, store, run, issuer), run[i].rows)
    requires !OverflowOf(Reached(limits, store, run).state.issuers, issuer)
    ensures var w := Reached(limits, store, run); AllAccounted(w.store, w.state.deficit, issuer, run[i].rows)
  {
    hide Reached, Mark, AllKept, Covers, Accounted, OverflowOf;
    MarkerHonest(limits, store, run, issuer);
    var w, mark := Reached(limits, store, run), Mark(limits, store, run, issuer);
    forall k | 0 <= k < |run[i].rows|
      ensures Accounted(w.store, w.state.deficit, issuer, run[i].rows[k])
    {
      CoveredAccounted(w.store, w.state.deficit, issuer, mark, run[i].rows[k]);
    }
  }

  /** Of two manifests of the issuer the later covers the earlier, unless it is shorter, and then it is covered by it. */
  ghost predicate Growing(run: seq<Event>, issuer: Id32) {
    forall i, j :: 0 <= i < j < |run| && OfferedBy(run[i], issuer) && OfferedBy(run[j], issuer) ==>
      if |run[j].rows| >= |run[i].rows| then CoversAll(run[j].rows, run[i].rows) else CoversAll(run[i].rows, run[j].rows)
  }

  /** The mark is a manifest of the run, or there has been none. */
  ghost predicate MarkFrom(run: seq<Event>, issuer: Id32, mark: seq<Row>) {
    mark == [] || exists i :: 0 <= i < |run| && OfferedBy(run[i], issuer) && run[i].rows == mark
  }

  lemma {:induction false} MarkIsOffered(limits: Limits, store: seq<Held>, run: seq<Event>, issuer: Id32)
    ensures MarkFrom(run, issuer, Mark(limits, store, run, issuer))
  {
    hide Reached, FindIssuer;
    if |run| > 0 {
      var n := |run| - 1;
      MarkIsOffered(limits, store, run[..n], issuer);
      var s, mark := Reached(limits, store, run[..n]).state, Mark(limits, store, run, issuer);
      if Reaches(s, run[n], issuer) {
        assert OfferedBy(run[n], issuer) && run[n].rows == mark;
      } else if mark != [] {
        var i :| 0 <= i < n && OfferedBy(run[..n][i], issuer) && run[..n][i].rows == mark;
        assert run[i] == run[..n][i];
      }
    }
  }

  /** With growing manifests the mark covers every manifest taken up. */
  lemma {:induction false} MarkCovers(limits: Limits, store: seq<Held>, run: seq<Event>, issuer: Id32, i: nat)
    requires Growing(run, issuer) && i < |run| && TakenUp(limits, store, run, issuer, i)
    ensures CoversAll(Mark(limits, store, run, issuer), run[i].rows)
    decreases |run|
  {
    hide CoversAll, Reached, SeenBy, FindIssuer;
    var n := |run| - 1;
    var s, was := Reached(limits, store, run[..n]).state, Mark(limits, store, run[..n], issuer);
    var mark := Mark(limits, store, run, issuer);
    SeenIsMark(limits, store, run[..n], issuer);
    MarkIsOffered(limits, store, run[..n], issuer);
    if TakesUp(s, run[n], issuer) {
      LastAgainstMark(run, issuer, was);
    }
    if i < n {
      assert run[..n][..i] == run[..i] && run[..n][i] == run[i];
      MarkCovers(limits, store, run[..n], issuer, i);
      if Reaches(s, run[n], issuer) {
        CoversTransitive(mark, was, run[i].rows);
      }
    } else {
      CoversItself(run[i].rows);
    }
  }

  /** The last manifest covers the mark, or falls short of it and is covered by it. */
  lemma LastAgainstMark(run: seq<Event>, issuer: Id32, was: seq<Row>)
    requires |run| > 0 && Growing(run, issuer) && OfferedBy(run[|run| - 1], issuer) && MarkFrom(run[..|run| - 1], issuer, was)
    ensures var rows := run[|run| - 1].rows;
            if |rows| >= |was| then CoversAll(rows, was) else CoversAll(was, rows)
  {
    var n := |run| - 1;
    if was == [] {
      assert CoversAll(run[n].rows, []);
    } else {
      var j :| 0 <= j < n && OfferedBy(run[..n][j], issuer) && run[..n][j].rows == was;
      assert run[j] == run[..n][j];
    }
  }

  // ---- nested manifests ---------------------------------------------------------------------------------------

  ghost predicate Includes(a: seq<Row>, b: seq<Row>) {
    forall r :: r in b ==> r in a
  }

  /** All the issuer's manifests in the run are canonical, and of any two one includes the other. */
  ghost predicate Nested(run: seq<Event>, issuer: Id32) {
    && (forall i :: 0 <= i < |run| && OfferedBy(run[i], issuer) ==> Canonical(run[i].rows))
    && (forall i, j :: 0 <= i < |run| && 0 <= j < |run| && OfferedBy(run[i], issuer) && OfferedBy(run[j], issuer) ==>
          Includes(run[i].rows, run[j].rows) || Includes(run[j].rows, run[i].rows))
  }

  ghost function Rows(s: seq<Row>): (r: set<Row>) { set x | x in s }

  lemma {:induction false} CanonicalCard(s: seq<Row>, n: nat)
    requires Canonical(s) && n <= |s|
    ensures |Rows(s[..n])| == n
  {
    hide Canonical;
    if n > 0 {
      CanonicalCard(s, n - 1);
      assert s[..n] == s[..n - 1] + [s[n - 1]];
      if s[n - 1] in s[..n - 1] {
        var i :| 0 <= i < n - 1 && s[i] == s[n - 1];
        RowsDistinct(s, i, n - 1);
      }
      assert Rows(s[..n]) == Rows(s[..n - 1]) + {s[n - 1]};
    }
  }

  lemma RowsDistinct(s: seq<Row>, i: nat, j: nat)
    requires Canonical(s) && i < |s| && j < |s| && s[i] == s[j]
    ensures i == j
  {
    assert Keys(s)[i] == Keys(s)[j];
    AscendingDistinct(Keys(s), i, j);
  }

  /** Of two canonical manifests one of which includes the other, the longer includes the shorter. */
  lemma LongerIncludes(a: seq<Row>, b: seq<Row>)
    requires Canonical(a) && Canonical(b) && (Includes(a, b) || Includes(b, a)) && |a| >= |b|
    ensures Includes(a, b)
  {
    hide Canonical;
    CanonicalCard(a, |a|);
    CanonicalCard(b, |b|);
    assert a[..|a|] == a && b[..|b|] == b;
    if Includes(b, a) {
      assert Rows(a) <= Rows(b);
      SubsetSize(Rows(a), Rows(b));
      assert forall r :: r in b ==> r in Rows(b);
    }
  }

  lemma IncludesCovers(a: seq<Row>, b: seq<Row>)
    requires Includes(a, b)
    ensures CoversAll(a, b)
  {
    forall i | 0 <= i < |b|
      ensures Covers(a, b[i])
    {
      assert b[i] in a;
      var j :| 0 <= j < |a| && a[j] == b[i];
      assert CoversBy(a[j], b[i]);
    }
  }

  /** Manifests nested by inclusion are growing, so a clear marker answers for every one of them. */
  lemma NestedGrows(run: seq<Event>, issuer: Id32)
    requires Nested(run, issuer)
    ensures Growing(run, issuer)
  {
    hide Includes, CoversAll, Canonical;
    forall i, j | 0 <= i < j < |run| && OfferedBy(run[i], issuer) && OfferedBy(run[j], issuer)
      ensures if |run[j].rows| >= |run[i].rows| then CoversAll(run[j].rows, run[i].rows) else CoversAll(run[i].rows, run[j].rows)
    {
      if |run[j].rows| >= |run[i].rows| {
        LongerIncludes(run[j].rows, run[i].rows);
        IncludesCovers(run[j].rows, run[i].rows);
      } else {
        LongerIncludes(run[i].rows, run[j].rows);
        IncludesCovers(run[i].rows, run[j].rows);
      }
    }
  }

  lemma NestedAccounted(limits: Limits, store: seq<Held>, run: seq<Event>, issuer: Id32, i: nat)
    requires AllKept(limits, store, run, issuer) && Nested(run, issuer) && i < |run| && TakenUp(limits, store, run, issuer, i)
    requires !OverflowOf(Reached(limits, store, run).state.issuers, issuer)
    ensures var w := Reached(limits, store, run); AllAccounted(w.store, w.state.deficit, issuer, run[i].rows)
  {
    hide Reached, Mark, AllKept, Nested, Growing, CoversAll, OverflowOf, AllAccounted;
    NestedGrows(run, issuer);
    MarkCovers(limits, store, run, issuer, i);
    ClearMeansAccounted(limits, store, run, issuer, i);
  }

  // ---- where a clear marker lies ----------------------------------------------------------------------------------

  /** A manifest of the same size that does not cover the newer one's row: replayed, the older clears the marker while the
      newer row is owed and not listed. */
  lemma SameSizeReplay(x: Id32, y: Id32, cap: Id32, grantee: Id32, a: Id32, b: Id32)
    returns (store: seq<Held>, run: seq<Event>)
    requires x != y && a != b
    ensures |run| == 5 && run[3] == Offered(x, [Row(cap, grantee, b, REVOKED)], true)
    ensures run[4] == Offered(x, [Row(cap, grantee, a, REVOKED)], true)
    ensures var w := Reached(Limits(2, 1), store, run);
            && OverflowOf(Reached(Limits(2, 1), store, run[..4]).state.issuers, x) && !OverflowOf(w.state.issuers, x)
            && !Accounted(w.store, w.state.deficit, x, Row(cap, grantee, b, REVOKED))
  {
    var older, newer := Row(cap, grantee, a, REVOKED), Row(cap, grantee, b, REVOKED);
    store := [Held(x, cap, grantee, a, false)];
    run := [Follows(x), Follows(y), Offered(y, [newer], true), Offered(x, [newer], true), Offered(x, [older], true)];
    assert store[1..] == [];
    assert Matched(store, x, older) && !Matched(store, x, newer) && !Matched(store, y, newer);
    hide Reached, FindIssuer, Matched;
    ReplayReaches(store, run, x, y, older, newer);
    FindEither(Followed(x, 1, true), Followed(y, 1, false));
    FindEither(Followed(x, 1, false), Followed(y, 1, false));
  }

  lemma ReplayReaches(store: seq<Held>, run: seq<Event>, x: Id32, y: Id32, older: Row, newer: Row)
    requires x != y && Matched(store, x, older) && !Matched(store, x, newer) && !Matched(store, y, newer)
    requires run == [Follows(x), Follows(y), Offered(y, [newer], true), Offered(x, [newer], true), Offered(x, [older], true)]
    ensures var s := State([Followed(x, 1, true), Followed(y, 1, false)], [Want(y, newer)]);
            Reached(Limits(2, 1), store, run[..4]) == World(s, store)
    ensures var s := State([Followed(x, 1, false), Followed(y, 1, false)], [Want(y, newer)]);
            Reached(Limits(2, 1), store, run) == World(s, store)
  {
    hide Matched, After, Reached;
    var limits, d := Limits(2, 1), [Want(y, newer)];
    assert run[..2] == [Follows(x), Follows(y)] && run[..5] == run;
    FollowBoth(limits, store, x, y);
    Turns(limits, store, run, 2);
    Turns(limits, store, run, 3);
    Turns(limits, store, run, 4);
    OfferSecond(Followed(x, 0, false), Followed(y, 0, false), [], store, newer);
    assert [] + [Want(y, newer)] == d;
    OfferFirst(Followed(x, 0, false), Followed(y, 1, false), d, store, newer);
    OfferFirst(Followed(x, 1, true), Followed(y, 1, false), d, store, older);
  }

  lemma OfferFirst(f: Followed, g: Followed, d: seq<Missing>, store: seq<Held>, r: Row)
    requires f.issuer != g.issuer && f.pairsSeen <= 1 && |d| >= 1
    ensures After(World(State([f, g], d), store), Limits(2, 1), Offered(f.issuer, [r], true)) ==
            World(State([Followed(f.issuer, 1, !Accounted(store, d, f.issuer, r)), g], d), store)
  {
    hide After, Accounted, FindIssuer;
    FindEither(f, g);
    OfferOne(State([f, g], d), store, f.issuer, r);
  }

  lemma OfferSecond(f: Followed, g: Followed, d: seq<Missing>, store: seq<Held>, r: Row)
    requires f.issuer != g.issuer && g.pairsSeen <= 1 && |d| == 0 && !Accounted(store, d, g.issuer, r)
    ensures After(World(State([f, g], d), store), Limits(2, 1), Offered(g.issuer, [r], true)) ==
            World(State([f, Followed(g.issuer, 1, false)], d + [Want(g.issuer, r)]), store)
  {
    hide After, Accounted, FindIssuer;
    FindEither(f, g);
    OfferOne(State([f, g], d), store, g.issuer, r);
  }

  lemma Turns(limits: Limits, store: seq<Held>, run: seq<Event>, n: nat)
    requires n < |run|
    ensures Reached(limits, store, run[..n + 1]) == After(Reached(limits, store, run[..n]), limits, run[n])
  {
    hide After;
    assert run[..n + 1][..n] == run[..n];
  }

  lemma FindEither(f: Followed, g: Followed)
    requires f.issuer != g.issuer
    ensures FindIssuer([f, g], f.issuer) == 0 && FindIssuer([f, g], g.issuer) == 1
  {
    assert [f, g][0] == f && [f, g][1] == g;
  }

  lemma FollowOne(limits: Limits, store: seq<Held>, x: Id32)
    requires limits.issuers > 0
    ensures Reached(limits, store, [Follows(x)]) == World(State([Followed(x, 0, false)], []), store)
  {
    var run := [Follows(x)];
    assert run[..0] == [];
  }

  lemma FollowBoth(limits: Limits, store: seq<Held>, x: Id32, y: Id32)
    requires x != y && limits == Limits(2, 1)
    ensures Reached(limits, store, [Follows(x), Follows(y)]) ==
            World(State([Followed(x, 0, false), Followed(y, 0, false)], []), store)
  {
    var run := [Follows(x), Follows(y)];
    assert run[..1] == [Follows(x)];
    FollowOne(limits, store, x);
    FindNew([], Followed(x, 0, false), y);
  }

  /** A manifest of one row. */
  lemma OfferOne(s: State, store: seq<Held>, issuer: Id32, r: Row)
    requires FindIssuer(s.issuers, issuer) < |s.issuers|
    ensures var at := FindIssuer(s.issuers, issuer);
            var f, owed := s.issuers[at], !Accounted(store, s.deficit, issuer, r);
            var lost := owed && |s.deficit| >= 1;
            After(World(s, store), Limits(2, 1), Offered(issuer, [r], true)) ==
              World(State(s.issuers[at := Followed(issuer, if f.pairsSeen <= 1 then 1 else f.pairsSeen,
                                                   lost || (f.overflowed && f.pairsSeen > 1))],
                          if owed && !lost then s.deficit + [Want(issuer, r)] else s.deficit), store)
  {
    hide Accounted, FindIssuer;
    var d, rows := s.deficit, [r];
    assert Listed(d, 1, store, issuer, rows, 0) == d && Lost(d, 1, store, issuer, rows, 0) == 0;
    assert rows[0] == r && |rows| == 1;
  }

  /** An issuer is followed, its one-row manifest taken up, and a record about the pair drains it and leaves the store as
      `after`. */
  function DrainRun(x: Id32, row: Row, after: seq<Held>): (run: seq<Event>) {
    [Follows(x), Offered(x, [row], true), Delivered(Want(x, row), true, after)]
  }

  /** The marker is clear then, and the row is accounted for exactly when the store after the drain matches it. */
  lemma DrainLeaves(x: Id32, row: Row, store: seq<Held>, after: seq<Held>)
    requires StateOk(row) && !Matched(store, x, row)
    ensures Nested(DrainRun(x, row, after), x)
    ensures var w := Reached(Limits(2, 1), store, DrainRun(x, row, after));
            && !OverflowOf(w.state.issuers, x) && w.store == after
            && (Accounted(w.store, w.state.deficit, x, row) <==> Matched(after, x, row))
  {
    hide Matched, Canonical, Reached, FindIssuer;
    OneRowCanonical(row);
    DrainReaches(store, x, row, after);
    FollowedOnly(Followed(x, 1, false));
  }

  lemma OneRowCanonical(r: Row)
    requires StateOk(r)
    ensures Canonical([r])
  {
    assert Keys([r]) == [Key(r)];
  }

  lemma FollowedOnly(f: Followed)
    ensures FindIssuer([f], f.issuer) == 0
  {
  }

  lemma DrainReaches(store: seq<Held>, x: Id32, row: Row, after: seq<Held>)
    requires !Matched(store, x, row)
    ensures Reached(Limits(2, 1), store, DrainRun(x, row, after)) == World(State([Followed(x, 1, false)], []), after)
  {
    hide Matched, Reached, FindIssuer, Noted, Without;
    var limits, m, run := Limits(2, 1), Want(x, row), DrainRun(x, row, after);
    FollowOne(limits, store, x);
    assert run[..1] == [Follows(x)] && run[..3] == run;
    Turns(limits, store, run, 1);
    Turns(limits, store, run, 2);
    FollowedOnly(Followed(x, 0, false));
    OfferOne(State([Followed(x, 0, false)], []), store, x, row);
    assert [] + [m] == [m];
    WithoutOnly(m);
  }

  lemma WithoutOnly(m: Missing)
    ensures Without([m], m) == []
  {
    assert [m][1..] == [];
  }
}
