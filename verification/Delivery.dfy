/** Admission and the deficit together: what admitting a record does to what a manifest says is owed. The store is read both
    as chain/revocation.c judges it and as chain/manifest.c compares it. */
module Delivery {
  import opened Collections
  import opened ByteOrder
  import opened ManifestForm
  import opened ManifestIssue
  import opened Deficit
  import opened Marker
  import V = Votes
  import T = Verdicts
  import A = Admission

  /** A record as it is sent. */
  datatype Sent = Sent(withdrawal: bool, issuer: Id32, cap: Id32, grantee: Id32, epoch: V.Epoch, supersedes: Id32, cut: Id32, id: Id32)

  // ---- bytes as the names admission compares ---------------------------------------------------------

  function Num(b: Bytes): (n: nat) {
    if |b| == 0 then 0 else 256 * Num(b[..|b| - 1]) + b[|b| - 1]
  }

  lemma {:induction false} NumInjective(a: Bytes, b: Bytes)
    requires |a| == |b| && Num(a) == Num(b)
    ensures a == b
  {
    if |a| > 0 {
      var n := |a| - 1;
      NumInjective(a[..n], b[..n]);
      assert a == a[..n] + [a[n]] && b == b[..n] + [b[n]];
    }
  }

  function Opened(r: Sent): (o: A.Record) {
    A.Record(r.withdrawal, Num(r.issuer), Num(r.cap), Num(r.grantee), r.epoch, Num(r.supersedes), Num(r.cut), Num(r.id))
  }

  function PairOf(r: Sent): (m: Missing) { Missing(r.issuer, r.cap, r.grantee) }

  predicate Same(e: V.Entry, h: Held) {
    && e.issuer == Num(h.issuer) && e.cap == Num(h.cap) && e.grantee == Num(h.grantee)
    && e.id == Num(h.id) && e.withdrawn == h.withdrawn
  }

  /** The two readings are of one store. */
  ghost predicate Mirrors(entries: seq<V.Entry>, store: seq<Held>) {
    |entries| == |store| && forall i :: 0 <= i < |store| ==> Same(entries[i], store[i])
  }

  lemma {:induction false} SameTriple(e: V.Entry, h: Held, r: Sent)
    requires Same(e, h)
    ensures A.SameTriple(e, Opened(r)) <==> h.issuer == r.issuer && h.cap == r.cap && h.grantee == r.grantee
  {
    hide Num;
    if A.SameTriple(e, Opened(r)) {
      NumInjective(h.issuer, r.issuer);
      NumInjective(h.cap, r.cap);
      NumInjective(h.grantee, r.grantee);
    }
  }

  lemma MirrorTriples(entries: seq<V.Entry>, store: seq<Held>)
    requires T.OnePerTriple(entries) && Mirrors(entries, store)
    ensures OnePerTriple(store)
  {
    hide Num;
  }

  // ---- what one admission does ---------------------------------------------------------------------------

  /** The store after an admission, as the manifest reads it. */
  function StoredAfter(entries: seq<V.Entry>, capacity: nat, store: seq<Held>, r: Sent): (after: seq<Held>)
    requires |entries| == |store|
  {
    var step := A.Admit(entries, capacity, Opened(r)).entries;
    if |step| > |store| then store + [Held(r.issuer, r.cap, r.grantee, if r.withdrawal then r.supersedes else r.id, r.withdrawal)]
    else
      var at := A.Find(entries, Opened(r));
      if at == |store| || step == entries then store
      else store[at := store[at].(id := if r.withdrawal then store[at].id else r.id, withdrawn := r.withdrawal)]
  }

  /** It is a reading of the same store, and differs from the one before about the record's own pair alone. */
  lemma StoredMirrors(entries: seq<V.Entry>, capacity: nat, store: seq<Held>, r: Sent)
    requires Mirrors(entries, store)
    ensures Mirrors(A.Admit(entries, capacity, Opened(r)).entries, StoredAfter(entries, capacity, store, r))
  {
    hide Num;
  }

  lemma StoredOnlyAbout(entries: seq<V.Entry>, capacity: nat, store: seq<Held>, r: Sent)
    requires T.OnePerTriple(entries) && |entries| <= capacity && Mirrors(entries, store)
    ensures OnlyAbout(store, StoredAfter(entries, capacity, store, r), PairOf(r))
  {
    hide A.Admit, Num, Matched, StoredAfter;
    var after := StoredAfter(entries, capacity, store, r);
    A.AdmitKeepsTriples(entries, capacity, Opened(r));
    StoredMirrors(entries, capacity, store, r);
    MirrorTriples(entries, store);
    MirrorTriples(A.Admit(entries, capacity, Opened(r)).entries, after);
    StoredElsewhere(entries, capacity, store, r);
    forall issuer: Id32, row: Row | Want(issuer, row) != PairOf(r)
      ensures Matched(after, issuer, row) == Matched(store, issuer, row)
    {
      MatchedIs(store, issuer, row);
      MatchedIs(after, issuer, row);
    }
  }

  /** Entries about other pairs are the same before and after. */
  lemma StoredElsewhere(entries: seq<V.Entry>, capacity: nat, store: seq<Held>, r: Sent)
    requires Mirrors(entries, store)
    ensures var after := StoredAfter(entries, capacity, store, r);
            forall e: Held :: Missing(e.issuer, e.cap, e.grantee) != PairOf(r) ==> (e in after <==> e in store)
  {
    hide Num;
    var after, at := StoredAfter(entries, capacity, store, r), A.Find(entries, Opened(r));
    if at < |store| {
      SameTriple(entries[at], store[at], r);
      assert forall i :: 0 <= i < |store| && i != at ==> after[i] == store[i];
    }
    forall e: Held | Missing(e.issuer, e.cap, e.grantee) != PairOf(r)
      ensures e in after <==> e in store
    {
      if e in store {
        var i :| 0 <= i < |store| && store[i] == e;
        assert after[i] == e;
      }
    }
  }

  /** An admission as an event beside the deficit. */
  function Event(entries: seq<V.Entry>, capacity: nat, store: seq<Held>, r: Sent): (ev: Marker.Event)
    requires |entries| == |store|
  {
    Delivered(PairOf(r), A.Admit(entries, capacity, Opened(r)).drained, StoredAfter(entries, capacity, store, r))
  }

  // ---- when it keeps the marker honest --------------------------------------------------------------------

  /** A withdrawal drains nothing and undoes no match, so it always does. */
  lemma WithdrawalKeeps(entries: seq<V.Entry>, capacity: nat, w: World, r: Sent, issuer: Id32, rows: seq<Row>)
    requires T.OnePerTriple(entries) && |entries| <= capacity && Mirrors(entries, w.store) && r.withdrawal
    requires AllAccounted(w.store, w.state.deficit, issuer, rows)
    ensures Keeps(w, Event(entries, capacity, w.store, r), issuer, rows)
  {
    hide Num, Matched, StoredAfter, A.Admit;
    var after := StoredAfter(entries, capacity, w.store, r);
    A.AdmitKeepsTriples(entries, capacity, Opened(r));
    StoredMirrors(entries, capacity, w.store, r);
    MirrorTriples(entries, w.store);
    MirrorTriples(A.Admit(entries, capacity, Opened(r)).entries, after);
    WithdrawalStored(entries, capacity, w.store, r);
    forall i | 0 <= i < |rows| && Want(issuer, rows[i]) == PairOf(r)
      ensures Matched(after, issuer, rows[i]) || PairOf(r) in w.state.deficit
    {
      assert Accounted(w.store, w.state.deficit, issuer, rows[i]);
      if Matched(w.store, issuer, rows[i]) {
        MatchedIs(w.store, issuer, rows[i]);
        MatchedIs(after, issuer, rows[i]);
        var e :| e in w.store && About(e, issuer, rows[i]) && e.id == rows[i].id && (rows[i].state == WITHDRAWN ==> e.withdrawn);
        var j :| 0 <= j < |w.store| && w.store[j] == e;
        assert after[j] in after;
      }
    }
  }

  lemma WithdrawalStored(entries: seq<V.Entry>, capacity: nat, store: seq<Held>, r: Sent)
    requires Mirrors(entries, store) && r.withdrawal
    ensures !A.Admit(entries, capacity, Opened(r)).drained
    ensures var after := StoredAfter(entries, capacity, store, r);
            |after| >= |store| && forall j :: 0 <= j < |store| ==>
              after[j] == store[j].(withdrawn := after[j].withdrawn) && (store[j].withdrawn ==> after[j].withdrawn)
  {
    hide Num;
  }

  /** The record takes the triple's place in the store: nothing is held, or it supersedes the record held -- or anything, over a
      withdrawal. */
  predicate Takes(held: Option<V.Entry>, r: A.Record) {
    match held
    case None => true
    case Some(e) => e.id != r.id && if e.withdrawn then r.supersedes != 0 else r.supersedes == e.id
  }

  lemma TakenOrLeft(entries: seq<V.Entry>, capacity: nat, store: seq<Held>, r: Sent)
    requires Mirrors(entries, store) && A.Admit(entries, capacity, Opened(r)).drained
    ensures var after, at := StoredAfter(entries, capacity, store, r), A.Find(entries, Opened(r));
            if Takes(A.Lookup(entries, Opened(r)), Opened(r)) then at < |after| && after[at].id == r.id && !after[at].withdrawn
            else after == store
  {
    hide Num;
  }

  /** An admission that drains, and any row about its pair: when the record takes its place, the row is matched afterwards exactly
      when it names that record and does not withdraw it; otherwise exactly when it was matched before. */
  lemma DrainKeepsIff(entries: seq<V.Entry>, capacity: nat, store: seq<Held>, r: Sent, row: Row)
    requires T.OnePerTriple(entries) && |entries| <= capacity && Mirrors(entries, store)
    requires A.Admit(entries, capacity, Opened(r)).drained && row.cap == r.cap && row.grantee == r.grantee
    ensures Matched(StoredAfter(entries, capacity, store, r), r.issuer, row) <==>
            if Takes(A.Lookup(entries, Opened(r)), Opened(r)) then row.id == r.id && row.state != WITHDRAWN
            else Matched(store, r.issuer, row)
  {
    hide Num, Matched, StoredAfter, A.Admit, Takes;
    TakenOrLeft(entries, capacity, store, r);
    if Takes(A.Lookup(entries, Opened(r)), Opened(r)) {
      var after, at := StoredAfter(entries, capacity, store, r), A.Find(entries, Opened(r));
      A.AdmitKeepsTriples(entries, capacity, Opened(r));
      StoredMirrors(entries, capacity, store, r);
      MirrorTriples(A.Admit(entries, capacity, Opened(r)).entries, after);
      OwnPlace(entries, capacity, store, r);
      MatchedIs(after, r.issuer, row);
      assert after[at] in after;
      forall e | e in after && About(e, r.issuer, row)
        ensures e == after[at]
      {
        var i :| 0 <= i < |after| && after[i] == e;
      }
    }
  }

  /** The place written is the pair's own. */
  lemma OwnPlace(entries: seq<V.Entry>, capacity: nat, store: seq<Held>, r: Sent)
    requires Mirrors(entries, store) && A.Admit(entries, capacity, Opened(r)).drained
    ensures var after, at := StoredAfter(entries, capacity, store, r), A.Find(entries, Opened(r));
            at < |after| && after[at].issuer == r.issuer && after[at].cap == r.cap && after[at].grantee == r.grantee
  {
    hide Num;
    var at := A.Find(entries, Opened(r));
    if at < |store| {
      SameTriple(entries[at], store[at], r);
    }
  }

  /** A drain that leaves the store as it was: exactly the pairs the store holds can be drained so, by delivering again the
      record held. */
  lemma QuietDrain(entries: seq<V.Entry>, capacity: nat, about: A.Record)
    requires T.OnePerTriple(entries)
    ensures A.Find(entries, about) < |entries| <==>
            exists r: A.Record :: A.SameSubject(r, about) && A.Admit(entries, capacity, r).drained &&
                                  A.Admit(entries, capacity, r).entries == entries
  {
    var at := A.Find(entries, about);
    if at < |entries| {
      var e := entries[at];
      var r := about.(withdrawal := false, id := e.id);
      A.FindUnique(entries, r, at);
      assert A.SameSubject(r, about) && A.Admit(entries, capacity, r).drained && A.Admit(entries, capacity, r).entries == entries;
    } else {
      forall r: A.Record | A.SameSubject(r, about) && A.Admit(entries, capacity, r).drained
        ensures A.Admit(entries, capacity, r).entries != entries
      {
        assert A.Find(entries, r) == |entries|;
      }
    }
  }

  // ---- how a clear marker lies -----------------------------------------------------------------------------

  /** A manifest of one row, not matched, and then an admission that drains its pair: the marker is clear, and the row is
      accounted for exactly when the record takes its place and is the one the row names, unwithdrawn. */
  lemma DrainLiesUnless(entries: seq<V.Entry>, capacity: nat, store: seq<Held>, r: Sent, row: Row)
    requires T.OnePerTriple(entries) && |entries| <= capacity && Mirrors(entries, store)
    requires A.Admit(entries, capacity, Opened(r)).drained
    requires row.cap == r.cap && row.grantee == r.grantee && StateOk(row) && !Matched(store, r.issuer, row)
    ensures var run := DrainRun(r.issuer, row, StoredAfter(entries, capacity, store, r));
            var w := Reached(Limits(2, 1), store, run);
            && run[2] == Event(entries, capacity, store, r) && Nested(run, r.issuer) && !OverflowOf(w.state.issuers, r.issuer)
            && (Accounted(w.store, w.state.deficit, r.issuer, row) <==>
                Takes(A.Lookup(entries, Opened(r)), Opened(r)) && row.id == r.id && row.state != WITHDRAWN)
  {
    hide Num, Matched, StoredAfter, A.Admit, Takes, Reached, Nested, OverflowOf;
    DrainKeepsIff(entries, capacity, store, r, row);
    DrainLeaves(r.issuer, row, store, StoredAfter(entries, capacity, store, r));
  }

  /** The record held, delivered again, drains a row that names another, and the store stands still. */
  lemma RedeliveryLies(r: Sent, b: Id32)
    requires !r.withdrawal && b != r.id
    ensures var store, row := [Held(r.issuer, r.cap, r.grantee, r.id, false)], Row(r.cap, r.grantee, b, REVOKED);
            var entries := [A.LiveEntry(Opened(r))];
            var w := Reached(Limits(2, 1), store, DrainRun(r.issuer, row, store));
            && Mirrors(entries, store) && Event(entries, 1, store, r) == Delivered(PairOf(r), true, store)
            && !OverflowOf(w.state.issuers, r.issuer) && !Accounted(w.store, w.state.deficit, r.issuer, row)
  {
    hide Num, Reached, Nested, Accounted, OverflowOf;
    var store, row := [Held(r.issuer, r.cap, r.grantee, r.id, false)], Row(r.cap, r.grantee, b, REVOKED);
    var entries := [A.LiveEntry(Opened(r))];
    A.FindUnique(entries, Opened(r), 0);
    assert !Matched(store, r.issuer, row) by { assert store[1..] == []; }
    DrainLiesUnless(entries, 1, store, r, row);
  }

  /** The very record a row names as withdrawn, delivered for the first time, drains the row and revokes. */
  lemma WithdrawnRowLies(r: Sent)
    requires !r.withdrawal
    ensures var after, row := [Held(r.issuer, r.cap, r.grantee, r.id, false)], Row(r.cap, r.grantee, r.id, WITHDRAWN);
            var w := Reached(Limits(2, 1), [], DrainRun(r.issuer, row, after));
            && Event([], 1, [], r) == Delivered(PairOf(r), true, after)
            && !OverflowOf(w.state.issuers, r.issuer) && !Accounted(w.store, w.state.deficit, r.issuer, row)
  {
    hide Num, Reached, Nested, Accounted, OverflowOf;
    var row := Row(r.cap, r.grantee, r.id, WITHDRAWN);
    assert [] + [Held(r.issuer, r.cap, r.grantee, r.id, false)] == [Held(r.issuer, r.cap, r.grantee, r.id, false)];
    assert !Matched([], r.issuer, row);
    DrainLiesUnless([], 1, [], r, row);
  }
}
