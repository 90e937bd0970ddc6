/** A host that follows issuers, takes up manifests and admits records: the overflow marker of chain/manifest.c over every run in
    which the store is what chain/revocation.c makes of the records received. */
module Reception {
  import opened Collections
  import opened ByteOrder
  import opened ManifestForm
  import opened ManifestIssue
  import opened Deficit
  import opened Marker
  import opened Delivery
  import V = Votes
  import T = Verdicts
  import A = Admission

  datatype Input = Follow(issuer: Id32) | Offer(issuer: Id32, rows: seq<Row>, signed: bool) | Receive(r: Sent)

  /** The store as admission keeps it, and the world the manifests are read in. */
  datatype Host = Host(entries: seq<V.Entry>, world: World)

  function EventOf(h: Host, capacity: nat, input: Input): (ev: Marker.Event)
    requires |h.entries| == |h.world.store|
  {
    match input
    case Follow(issuer) => Follows(issuer)
    case Offer(issuer, rows, signed) => Offered(issuer, rows, signed)
    case Receive(r) => Delivery.Event(h.entries, capacity, h.world.store, r)
  }

  function Next(h: Host, limits: Limits, capacity: nat, input: Input): (n: Host)
    requires |h.entries| == |h.world.store|
    ensures |n.entries| == |n.world.store|
  {
    Host(if input.Receive? then A.Admit(h.entries, capacity, Opened(input.r)).entries else h.entries,
         After(h.world, limits, EventOf(h, capacity, input)))
  }

  /** The host after a run of inputs from nothing, and the events they were. */
  function HostAfter(limits: Limits, capacity: nat, inputs: seq<Input>): (h: Host)
    ensures |h.entries| == |h.world.store|
  {
    if |inputs| == 0 then Host([], World(State([], []), []))
    else Next(HostAfter(limits, capacity, inputs[..|inputs| - 1]), limits, capacity, inputs[|inputs| - 1])
  }

  function EventsOf(limits: Limits, capacity: nat, inputs: seq<Input>): (run: seq<Marker.Event>)
    ensures |run| == |inputs|
  {
    if |inputs| == 0 then []
    else
      var n := |inputs| - 1;
      EventsOf(limits, capacity, inputs[..n]) + [EventOf(HostAfter(limits, capacity, inputs[..n]), capacity, inputs[n])]
  }

  /** The two readings of the store stay readings of one store, and the world is the one the events reach. */
  lemma {:induction false} HostIsReached(limits: Limits, capacity: nat, inputs: seq<Input>)
    ensures var h := HostAfter(limits, capacity, inputs);
            && h.world == Reached(limits, [], EventsOf(limits, capacity, inputs))
            && Mirrors(h.entries, h.world.store) && T.OnePerTriple(h.entries) && |h.entries| <= capacity
  {
    hide A.Admit, StoredAfter, After, Num;
    if |inputs| > 0 {
      var n := |inputs| - 1;
      HostIsReached(limits, capacity, inputs[..n]);
      var h, run := HostAfter(limits, capacity, inputs[..n]), EventsOf(limits, capacity, inputs);
      assert run[..n] == EventsOf(limits, capacity, inputs[..n]);
      if inputs[n].Receive? {
        A.AdmitKeepsTriples(h.entries, capacity, Opened(inputs[n].r));
        StoredMirrors(h.entries, capacity, h.world.store, inputs[n].r);
        StoreAfter(h.world, limits, EventOf(h, capacity, inputs[n]));
      } else {
        StoreKept(h.world, limits, EventOf(h, capacity, inputs[n]));
      }
    }
  }

  lemma StoreAfter(w: World, limits: Limits, ev: Marker.Event)
    requires ev.Delivered?
    ensures After(w, limits, ev).store == ev.store
  {
  }

  lemma StoreKept(w: World, limits: Limits, ev: Marker.Event)
    requires !ev.Delivered?
    ensures After(w, limits, ev).store == w.store
  {
  }

  // ---- when a record keeps the marker honest --------------------------------------------------------------

  /** Read from the entry held, the record and the row: the record takes its place and is the one the row names, unwithdrawn; or
      it is left, and the entry held matches the row. */
  predicate KeepsRow(held: Option<V.Entry>, r: Sent, row: Row) {
    if Takes(held, Opened(r)) then row.id == r.id && row.state != WITHDRAWN
    else held.Some? && held.value.id == Num(row.id) && (row.state == WITHDRAWN ==> held.value.withdrawn)
  }

  lemma HeldMatches(entries: seq<V.Entry>, store: seq<Held>, r: Sent, row: Row)
    requires T.OnePerTriple(entries) && Mirrors(entries, store) && row.cap == r.cap && row.grantee == r.grantee
    ensures var held := A.Lookup(entries, Opened(r));
            Matched(store, r.issuer, row) <==>
            held.Some? && held.value.id == Num(row.id) && (row.state == WITHDRAWN ==> held.value.withdrawn)
  {
    hide Num, Matched;
    MirrorTriples(entries, store);
    MatchedIs(store, r.issuer, row);
    var at := A.Find(entries, Opened(r));
    if at < |entries| {
      Delivery.SameTriple(entries[at], store[at], r);
      assert store[at] in store;
      if entries[at].id == Num(row.id) {
        NumInjective(store[at].id, row.id);
      }
    }
    if e :| e in store && About(e, r.issuer, row) {
      var i :| 0 <= i < |store| && store[i] == e;
      Delivery.SameTriple(entries[i], store[i], r);
      A.FindUnique(entries, Opened(r), i);
    }
  }

  /** A record received when the marker is clear keeps every row accounted for exactly when it drains nothing or keeps those about
      its pair as above. */
  lemma ReceiptKeeps(h: Host, capacity: nat, r: Sent, issuer: Id32, rows: seq<Row>)
    requires T.OnePerTriple(h.entries) && |h.entries| <= capacity && Mirrors(h.entries, h.world.store)
    requires AllAccounted(h.world.store, h.world.state.deficit, issuer, rows)
    ensures Keeps(h.world, Delivery.Event(h.entries, capacity, h.world.store, r), issuer, rows) <==>
            (A.Admit(h.entries, capacity, Opened(r)).drained ==>
               forall i :: 0 <= i < |rows| && Want(issuer, rows[i]) == PairOf(r) ==>
                 KeepsRow(A.Lookup(h.entries, Opened(r)), r, rows[i]))
  {
    hide Num, Matched, StoredAfter, A.Admit, Takes, A.Lookup;
    var drained := A.Admit(h.entries, capacity, Opened(r)).drained;
    if drained {
      forall i | 0 <= i < |rows| && Want(issuer, rows[i]) == PairOf(r)
        ensures Matched(StoredAfter(h.entries, capacity, h.world.store, r), issuer, rows[i]) <==>
                KeepsRow(A.Lookup(h.entries, Opened(r)), r, rows[i])
      {
        DrainKeepsIff(h.entries, capacity, h.world.store, r, rows[i]);
        HeldMatches(h.entries, h.world.store, r, rows[i]);
      }
    } else if r.withdrawal {
      WithdrawalKeeps(h.entries, capacity, h.world, r, issuer, rows);
    } else {
      Undrained(h.entries, capacity, h.world.store, r);
      forall i | 0 <= i < |rows|
        ensures Accounted(h.world.store, h.world.state.deficit, issuer, rows[i])
      {
      }
    }
  }

  /** A revocation that drains nothing found no room. */
  lemma Undrained(entries: seq<V.Entry>, capacity: nat, store: seq<Held>, r: Sent)
    requires |entries| == |store| && !r.withdrawal && !A.Admit(entries, capacity, Opened(r)).drained
    ensures StoredAfter(entries, capacity, store, r) == store
  {
    hide Num;
  }

  // ---- every run ----------------------------------------------------------------------------------------------

  /** Input `i`, if it is a record that drains a pair of the issuer's while its marker is clear, keeps the mark's rows about
      the pair. */
  ghost predicate KeptInput(limits: Limits, capacity: nat, inputs: seq<Input>, issuer: Id32, i: nat)
    requires i < |inputs|
  {
    var h, mark := HostAfter(limits, capacity, inputs[..i]), Mark(limits, [], EventsOf(limits, capacity, inputs[..i]), issuer);
    inputs[i].Receive? && !OverflowOf(h.world.state.issuers, issuer) &&
    A.Admit(h.entries, capacity, Opened(inputs[i].r)).drained ==>
      forall k :: 0 <= k < |mark| && Want(issuer, mark[k]) == PairOf(inputs[i].r) ==>
        KeepsRow(A.Lookup(h.entries, Opened(inputs[i].r)), inputs[i].r, mark[k])
  }

  lemma {:induction false} InputsKept(limits: Limits, capacity: nat, inputs: seq<Input>, issuer: Id32)
    requires forall i :: 0 <= i < |inputs| ==> KeptInput(limits, capacity, inputs, issuer, i)
    ensures AllKept(limits, [], EventsOf(limits, capacity, inputs), issuer)
  {
    hide KeptInput, KeptAt, HostAfter;
    if |inputs| > 0 {
      var n := |inputs| - 1;
      var run := EventsOf(limits, capacity, inputs);
      assert run[..n] == EventsOf(limits, capacity, inputs[..n]);
      forall i | 0 <= i < n
        ensures KeptInput(limits, capacity, inputs[..n], issuer, i)
      {
        KeptEarlier(limits, capacity, inputs, issuer, i);
      }
      InputsKept(limits, capacity, inputs[..n], issuer);
      LastKept(limits, capacity, inputs, issuer);
      forall i | 0 <= i < |run|
        ensures KeptAt(limits, [], run, issuer, i)
      {
        if i < n {
          assert KeptAt(limits, [], run[..n], issuer, i);
          KeptThere(limits, run, issuer, i);
        }
      }
    }
  }

  lemma KeptEarlier(limits: Limits, capacity: nat, inputs: seq<Input>, issuer: Id32, i: nat)
    requires i < |inputs| - 1 && KeptInput(limits, capacity, inputs, issuer, i)
    ensures KeptInput(limits, capacity, inputs[..|inputs| - 1], issuer, i)
  {
    hide HostAfter, EventsOf, Mark, A.Admit, A.Lookup, KeepsRow, OverflowOf;
    assert inputs[..|inputs| - 1][..i] == inputs[..i];
  }

  lemma KeptThere(limits: Limits, run: seq<Marker.Event>, issuer: Id32, i: nat)
    requires i < |run| - 1 && KeptAt(limits, [], run[..|run| - 1], issuer, i)
    ensures KeptAt(limits, [], run, issuer, i)
  {
    hide Reached, Mark, OnlyAbout, Keeps, OverflowOf;
    assert run[..|run| - 1][..i] == run[..i];
  }

  lemma LastKept(limits: Limits, capacity: nat, inputs: seq<Input>, issuer: Id32)
    requires |inputs| > 0 && KeptInput(limits, capacity, inputs, issuer, |inputs| - 1)
    requires AllKept(limits, [], EventsOf(limits, capacity, inputs[..|inputs| - 1]), issuer)
    ensures KeptAt(limits, [], EventsOf(limits, capacity, inputs), issuer, |inputs| - 1)
  {
    hide HostAfter, Reached, Mark, AllKept, A.Admit, A.Lookup, KeepsRow, OverflowOf, OnlyAbout, Keeps, Num, Mirrors;
    var n := |inputs| - 1;
    var h, run := HostAfter(limits, capacity, inputs[..n]), EventsOf(limits, capacity, inputs);
    assert run[..n] == EventsOf(limits, capacity, inputs[..n]);
    HostIsReached(limits, capacity, inputs[..n]);
    if inputs[n].Receive? {
      var r, mark := inputs[n].r, Mark(limits, [], run[..n], issuer);
      StoredOnlyAbout(h.entries, capacity, h.world.store, r);
      if !OverflowOf(h.world.state.issuers, issuer) {
        MarkerHonest(limits, [], run[..n], issuer);
        ReceiptKeeps(h, capacity, r, issuer, mark);
      }
    }
  }

  /** Over every run of follows, manifests and admitted records: a clear marker accounts for every row of the manifest that last
      reached the high-water mark, so long as each record that drained a pair of it either took its place as the record the row
      names, unwithdrawn, or was left beside an entry that matches the row. */
  lemma ReceivedHonest(limits: Limits, capacity: nat, inputs: seq<Input>, issuer: Id32)
    requires forall i :: 0 <= i < |inputs| ==> KeptInput(limits, capacity, inputs, issuer, i)
    ensures Honest(HostAfter(limits, capacity, inputs).world, issuer, Mark(limits, [], EventsOf(limits, capacity, inputs), issuer))
  {
    hide HostAfter, EventsOf, KeptInput, Reached, Mark, Honest;
    InputsKept(limits, capacity, inputs, issuer);
    HostIsReached(limits, capacity, inputs);
    MarkerHonest(limits, [], EventsOf(limits, capacity, inputs), issuer);
  }
}
