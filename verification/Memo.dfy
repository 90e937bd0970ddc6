/** The memo of affirmative verdicts, chain/memo.c, and its agreement with the verification it skips. */
module Memo {
  import opened Collections
  import opened Votes
  import opened Verdicts
  import opened Admins
  import opened Admission
  import opened Convergence
  import opened Chain

  /** What a verdict is remembered under. */
  datatype Triple = Triple(root: Key, grantee: Key, cap: Cap)

  /** One slot; generation 0 marks one never written. */
  datatype Slot = Slot(triple: Triple, generation: nat, expiresAt: Time)

  const EMPTY := Slot(Triple(0, 0, 0), 0, 0)

  // ---- the table, as a value --------------------------------------------------------------

  /** The first slot that satisfies `p`, or the length. */
  function FirstSlot(slots: seq<Slot>, p: Slot -> bool): (at: nat)
    ensures at <= |slots|
    ensures at < |slots| ==> p(slots[at])
    ensures forall i :: 0 <= i < at ==> !p(slots[i])
  {
    if |slots| == 0 || p(slots[0]) then 0
    else
      var at := 1 + FirstSlot(slots[1..], p);
      assert forall i :: 1 <= i < at ==> slots[i] == slots[1..][i - 1];
      at
  }

  function OwnSlot(slots: seq<Slot>, t: Triple): (at: nat)
    ensures at <= |slots|
  {
    FirstSlot(slots, (e: Slot) => e.triple == t)
  }

  function StaleSlot(slots: seq<Slot>, generation: nat): (at: nat)
    ensures at <= |slots|
  {
    FirstSlot(slots, (e: Slot) => e.generation != generation)
  }

  predicate Answers(e: Slot, t: Triple, generation: nat, now: Time) {
    e.generation == generation && e.triple == t && (e.expiresAt == NO_EXPIRY || now < e.expiresAt)
  }

  /** A hit: a slot of exactly this triple and generation, not expired. */
  ghost predicate Hit(slots: seq<Slot>, t: Triple, generation: nat, now: Time) {
    generation != 0 && exists i :: 0 <= i < |slots| && Answers(slots[i], t, generation, now)
  }

  /** Where a verdict goes: over its own triple; else the first slot empty or stale; else wherever the cursor stands. */
  function Target(slots: seq<Slot>, cursor: nat, t: Triple, generation: nat): (at: nat)
    requires cursor < |slots|
    ensures at < |slots|
  {
    var same := OwnSlot(slots, t);
    var stale := StaleSlot(slots, generation);
    if same < |slots| then same else if stale < |slots| then stale else cursor
  }

  predicate Evicts(slots: seq<Slot>, t: Triple, generation: nat) {
    OwnSlot(slots, t) == |slots| == StaleSlot(slots, generation)
  }

  function Remember(slots: seq<Slot>, cursor: nat, t: Triple, generation: nat, expiresAt: Time): (s: seq<Slot>)
    requires |slots| > 0 ==> cursor < |slots|
    ensures |s| == |slots|
  {
    if |slots| == 0 then slots
    else slots[Target(slots, cursor, t, generation) := Slot(t, generation, expiresAt)]
  }

  function NextCursor(slots: seq<Slot>, cursor: nat, t: Triple, generation: nat): (c: nat)
    requires |slots| > 0 ==> cursor < |slots|
    ensures |slots| > 0 ==> c < |slots|
  {
    if |slots| > 0 && Evicts(slots, t, generation) then (cursor + 1) % |slots| else cursor
  }

  class Table {
    const entries: array<Slot>
    var cursor: nat
    var hits: nat
    var misses: nat

    ghost predicate Valid()
      reads this
    {
      entries.Length > 0 ==> cursor < entries.Length
    }

    constructor (capacity: nat)
      ensures Valid() && fresh(entries) && entries.Length == capacity && hits == misses == 0
      ensures forall i :: 0 <= i < capacity ==> entries[i] == EMPTY
    {
      entries := new Slot[capacity](_ => EMPTY);
      cursor, hits, misses := 0, 0, 0;
    }

    method Allows(t: Triple, generation: nat, now: Time) returns (yes: bool)
      requires Valid()
      modifies this`hits, this`misses
      ensures yes == Hit(entries[..], t, generation, now)
      ensures hits == old(hits) + (if yes then 1 else 0) && misses == old(misses) + if yes then 0 else 1
    {
      if generation == 0 {
        misses := misses + 1;
        return false;
      }
      for i := 0 to entries.Length
        invariant forall j :: 0 <= j < i ==> !Answers(entries[j], t, generation, now)
        invariant hits == old(hits) && misses == old(misses)
      {
        var e := entries[i];
        if e.generation == 0 || e.generation != generation {
          continue;
        }
        if e.triple != t {
          continue;
        }
        if e.expiresAt != NO_EXPIRY && now >= e.expiresAt {
          continue;
        }
        hits := hits + 1;
        assert Answers(entries[..][i], t, generation, now);
        return true;
      }
      misses := misses + 1;
      return false;
    }

    /** Remembers a verdict; refused for generation 0. */
    method Record(t: Triple, expiresAt: Time, generation: nat) returns (ok: bool)
      requires Valid()
      modifies this`cursor, entries
      ensures Valid() && ok == (generation != 0)
      ensures !ok ==> entries[..] == old(entries[..]) && cursor == old(cursor)
      ensures ok ==> entries[..] == Remember(old(entries[..]), old(cursor), t, generation, expiresAt)
      ensures ok ==> cursor == NextCursor(old(entries[..]), old(cursor), t, generation)
    {
      if generation == 0 {
        return false;
      }
      if entries.Length == 0 {
        return true;
      }
      ghost var was := entries[..];
      var slot := FindSlot(t, generation);
      if slot == entries.Length {
        slot := cursor;
        cursor := (cursor + 1) % entries.Length;
      }
      entries[slot] := Slot(t, generation, expiresAt);
      return true;
    }

    method FindSlot(t: Triple, generation: nat) returns (slot: nat)
      ensures slot <= entries.Length
      ensures var same := OwnSlot(entries[..], t);
              slot == if same < entries.Length then same else StaleSlot(entries[..], generation)
    {
      slot := entries.Length;
      for i := 0 to entries.Length
        invariant slot < i || slot == entries.Length
        invariant forall j :: 0 <= j < i ==> entries[j].triple != t
        invariant forall j :: 0 <= j < i && j < slot ==> entries[j].generation == generation
        invariant slot < i ==> entries[slot].generation != generation
      {
        if entries[i].triple == t {
          assert entries[..][i].triple == t;
          return i;
        }
        if slot == entries.Length && entries[i].generation != generation {
          slot := i;
        }
      }
    }
  }

  // ---- one slot per triple ------------------------------------------------------------------

  /** What the table's writing keeps: unwritten slots come last, and no triple is written twice. */
  ghost predicate OnePerSlot(slots: seq<Slot>) {
    && (forall i :: 0 <= i < |slots| && slots[i].generation == 0 ==> slots[i] == EMPTY)
    && (forall i, j :: 0 <= i < j < |slots| && slots[i].generation == 0 ==> slots[j].generation == 0)
    && (forall i, j :: 0 <= i < j < |slots| && slots[i].generation != 0 && slots[j].generation != 0 ==>
          slots[i].triple != slots[j].triple)
  }

  lemma RememberKeepsOne(slots: seq<Slot>, cursor: nat, t: Triple, generation: nat, expiresAt: Time)
    requires OnePerSlot(slots) && generation != 0 && (|slots| > 0 ==> cursor < |slots|)
    ensures OnePerSlot(Remember(slots, cursor, t, generation, expiresAt))
  {
  }

  /** Remembered, a triple answers with what was recorded last; any other triple's slot is as it was or gone. */
  lemma RememberAnswers(slots: seq<Slot>, cursor: nat, t: Triple, generation: nat, expiresAt: Time, other: Triple, now: Time)
    requires OnePerSlot(slots) && generation != 0 && |slots| > 0 && cursor < |slots|
    ensures var s := Remember(slots, cursor, t, generation, expiresAt);
            && (Hit(s, t, generation, now) <==> expiresAt == NO_EXPIRY || now < expiresAt)
            && (other != t && Hit(s, other, generation, now) ==> Hit(slots, other, generation, now))
            && (other != t && Hit(slots, other, generation, now) && !Evicts(slots, t, generation) ==> Hit(s, other, generation, now))
  {
    var s := Remember(slots, cursor, t, generation, expiresAt);
    var at := Target(slots, cursor, t, generation);
    assert s[at] == Slot(t, generation, expiresAt);
    RememberKeepsOne(slots, cursor, t, generation, expiresAt);
    if other != t && Hit(slots, other, generation, now) && !Evicts(slots, t, generation) {
      var i :| 0 <= i < |slots| && Answers(slots[i], other, generation, now);
      assert i != at;
      assert Answers(s[i], other, generation, now);
    }
  }

  /** Every slot is live at the generation. */
  ghost predicate AllLive(slots: seq<Slot>, generation: nat) {
    generation != 0 && forall i :: 0 <= i < |slots| ==> slots[i].generation == generation
  }

  /** Recording triples one after the other. */
  function RememberAll(slots: seq<Slot>, cursor: nat, ts: seq<Triple>, generation: nat): (r: (seq<Slot>, nat))
    requires cursor < |slots|
    ensures |r.0| == |slots| && r.1 < |slots|
    decreases |ts|
  {
    if |ts| == 0 then (slots, cursor)
    else
      var (s, c) := RememberAll(slots, cursor, ts[..|ts| - 1], generation);
      (Remember(s, c, ts[|ts| - 1], generation, NO_EXPIRY), NextCursor(s, c, ts[|ts| - 1], generation))
  }

  /** A full memo overwrites round and round: `n` new triples take the `n` slots from the cursor on, and no other. */
  lemma {:induction false} EvictsInTurn(slots: seq<Slot>, cursor: nat, ts: seq<Triple>, generation: nat)
    requires cursor < |slots| && AllLive(slots, generation) && |ts| <= |slots|
    requires forall i, j :: 0 <= i < |slots| && 0 <= j < |ts| ==> slots[i].triple != ts[j]
    requires forall i, j :: 0 <= i < j < |ts| ==> ts[i] != ts[j]
    ensures var (s, c) := RememberAll(slots, cursor, ts, generation);
            && AllLive(s, generation) && c == Place(cursor, |ts|, |slots|)
            && (forall j :: 0 <= j < |ts| ==> s[Place(cursor, j, |slots|)] == Slot(ts[j], generation, NO_EXPIRY))
            && forall i :: 0 <= i < |slots| ==> s[i] == slots[i] || exists j :: 0 <= j < |ts| && i == Place(cursor, j, |slots|) && s[i].triple == ts[j]
  {
    hide Remember, NextCursor;
    if |ts| > 0 {
      var n := |ts| - 1;
      EvictsInTurn(slots, cursor, ts[..n], generation);
      var (s, c) := RememberAll(slots, cursor, ts[..n], generation);
      forall i | 0 <= i < |slots|
        ensures s[i].triple != ts[n]
      {
        if s[i] != slots[i] {
          var j :| 0 <= j < n && i == Place(cursor, j, |slots|) && s[i].triple == ts[..n][j];
        }
      }
      EvictsAtCursor(s, c, ts[n], generation);
      PlaceNext(cursor, n, |slots|);
    }
  }

  /** `k` past the cursor, going round. */
  function Place(cursor: nat, k: nat, n: nat): (p: nat)
    requires cursor < n && k <= n
    ensures p < n
  {
    if cursor + k < n then cursor + k else cursor + k - n
  }

  lemma PlaceNext(cursor: nat, k: nat, n: nat)
    requires cursor < n && k < n
    ensures (Place(cursor, k, n) + 1) % n == Place(cursor, k + 1, n)
  {
    var p := Place(cursor, k, n);
    if p + 1 == n {
      assert n % n == 0;
    } else {
      assert (p + 1) % n == p + 1;
    }
  }

  lemma EvictsAtCursor(slots: seq<Slot>, cursor: nat, t: Triple, generation: nat)
    requires cursor < |slots| && AllLive(slots, generation) && forall i :: 0 <= i < |slots| ==> slots[i].triple != t
    ensures Remember(slots, cursor, t, generation, NO_EXPIRY) == slots[cursor := Slot(t, generation, NO_EXPIRY)]
    ensures NextCursor(slots, cursor, t, generation) == (cursor + 1) % |slots|
  {
  }

  // ---- the memo beside the store ----------------------------------------------------------------

  /** The chain last recorded for a triple, and when it was verified. */
  datatype Recorded = Recorded(hops: seq<SignedHop>, at: Time)

  /** A store with its generation, the memo kept beside it, and the history the memo is held to. */
  datatype System = System(store: Store, capacity: nat, generation: nat, slots: seq<Slot>, cursor: nat, last: map<Triple, Recorded>)

  /** What happens to it: a record is admitted; the store is written in some other way, which moves its generation; or a
      chain is verified and, when it verifies, recorded under the generation of the store it was verified against. */
  datatype Event =
    | Admitted(r: Record)
    | Rewritten(store: Store)
    | Checked(hops: seq<SignedHop>, root: Key, cap: Cap, now: Time, pending: Option<Key -> nat>)

  ghost function At(ctx: Context, sys: System): (c: Context) {
    ctx.(store := Some(sys.store))
  }

  ghost function After(ctx: Context, sys: System, ev: Event): (next: System)
    requires |sys.slots| > 0 ==> sys.cursor < |sys.slots|
    ensures |next.slots| == |sys.slots| && (|next.slots| > 0 ==> next.cursor < |next.slots|)
  {
    match ev
    case Admitted(r) =>
      var step := Admit(sys.store.entries, sys.capacity, r);
      sys.(store := sys.store.(entries := step.entries), generation := sys.generation + if step.bumped then 1 else 0)
    case Rewritten(store) => sys.(store := store, generation := sys.generation + 1)
    case Checked(hops, root, cap, now, pending) =>
      var v := Verify(At(ctx, sys), hops, root, cap, now, pending);
      if v.Err? then sys
      else
        var t := Triple(root, v.value.grantee, cap);
        sys.(slots := Remember(sys.slots, sys.cursor, t, sys.generation, v.value.expiresAt),
             cursor := NextCursor(sys.slots, sys.cursor, t, sys.generation),
             last := sys.last[t := Recorded(hops, now)])
  }

  /** One pinned root throughout, and no reissue that moves a live vote's epoch. */
  predicate Steady(sys: System, ev: Event) {
    match ev
    case Admitted(r) => !MovesEpoch(sys.store.entries, r)
    case Rewritten(store) => store.roots.Pinned?
    case Checked(_, _, _, _, _) => true
  }

  ghost predicate Initial(sys: System) {
    && sys.store.roots.Pinned? && sys.generation == 1 && sys.cursor == 0 && sys.last == map[]
    && forall i :: 0 <= i < |sys.slots| ==> sys.slots[i] == EMPTY
  }

  /** A slot of the current generation holds the verdict of the chain last recorded for its triple, as it stands now. */
  ghost predicate Honest(ctx: Context, sys: System, e: Slot) {
    && e.triple in sys.last
    && var rec := sys.last[e.triple];
       var v := Verify(At(ctx, sys), rec.hops, e.triple.root, e.triple.cap, rec.at, None);
       v.Ok? && v.value.grantee == e.triple.grantee && v.value.expiresAt == e.expiresAt
  }

  ghost predicate Sound(ctx: Context, sys: System) {
    && sys.store.roots.Pinned? && sys.generation > 0 && (|sys.slots| > 0 ==> sys.cursor < |sys.slots|)
    && OnePerSlot(sys.slots)
    && (forall i :: 0 <= i < |sys.slots| ==> sys.slots[i].generation <= sys.generation)
    && (forall i :: 0 <= i < |sys.slots| && sys.slots[i].generation == sys.generation ==> Honest(ctx, sys, sys.slots[i]))
  }

  /** A quiet admission leaves every verification as it was. */
  lemma QuietVerify(ctx: Context, store: Store, capacity: nat, r: Record, hops: seq<SignedHop>, root: Key, cap: Cap, now: Time,
                    pending: Option<Key -> nat>)
    requires store.roots.Pinned? && !Admit(store.entries, capacity, r).bumped && !MovesEpoch(store.entries, r)
    ensures var after := store.(entries := Admit(store.entries, capacity, r).entries);
            Verify(ctx.(store := Some(store)), hops, root, cap, now, pending) ==
            Verify(ctx.(store := Some(after)), hops, root, cap, now, pending)
  {
    hide Admit, MovesEpoch, HopRevoked, Standing, FirstFault;
    var c, d := ctx.(store := Some(store)), ctx.(store := Some(store.(entries := Admit(store.entries, capacity, r).entries)));
    forall i | 0 <= i < |hops|
      ensures HopFault(c, hops, cap, now, i) == HopFault(d, hops, cap, now, i)
    {
      GenerationCovers(store, capacity, r, GrantorsOf(hops), hops[i].grant.grantee, i, cap);
    }
    SameFaults(c, d, hops, cap, now, |hops|);
  }

  lemma SameFaults(c: Context, d: Context, hops: seq<SignedHop>, cap: Cap, now: Time, n: nat)
    requires n <= |hops| && forall i :: 0 <= i < n ==> HopFault(c, hops, cap, now, i) == HopFault(d, hops, cap, now, i)
    ensures FirstFault(c, hops, cap, now, n) == FirstFault(d, hops, cap, now, n)
  {
    hide HopFault;
  }

  lemma SoundAdmitted(ctx: Context, sys: System, r: Record)
    requires Sound(ctx, sys) && !MovesEpoch(sys.store.entries, r)
    ensures Sound(ctx, After(ctx, sys, Admitted(r)))
  {
    hide Admit, MovesEpoch, OnePerSlot, Verify;
    var next := After(ctx, sys, Admitted(r));
    if !Admit(sys.store.entries, sys.capacity, r).bumped {
      forall i | 0 <= i < |next.slots| && next.slots[i].generation == next.generation
        ensures Honest(ctx, next, next.slots[i])
      {
        var t := sys.slots[i].triple;
        assert Honest(ctx, sys, sys.slots[i]);
        QuietVerify(ctx, sys.store, sys.capacity, r, sys.last[t].hops, t.root, t.cap, sys.last[t].at, None);
      }
    }
  }

  lemma SoundChecked(ctx: Context, sys: System, ev: Event)
    requires Sound(ctx, sys) && ev.Checked?
    ensures Sound(ctx, After(ctx, sys, ev))
  {
    hide OnePerSlot, Verify, Remember, NextCursor;
    var next := After(ctx, sys, ev);
    var v := Verify(At(ctx, sys), ev.hops, ev.root, ev.cap, ev.now, ev.pending);
    if v.Ok? && |sys.slots| > 0 {
      var t := Triple(ev.root, v.value.grantee, ev.cap);
      Written(sys.slots, sys.cursor, t, sys.generation, v.value.expiresAt);
      RememberKeepsOne(sys.slots, sys.cursor, t, sys.generation, v.value.expiresAt);
      VerifiedShape(At(ctx, sys), ev.hops, ev.root, ev.cap, ev.now, ev.pending);
      VerifiesUntilExpiry(At(ctx, sys), ev.hops, ev.root, ev.cap, ev.now, ev.now, ev.pending);
      forall i | 0 <= i < |next.slots| && next.slots[i].generation == next.generation
        ensures Honest(ctx, next, next.slots[i])
      {
        if next.slots[i].triple != t {
          assert Honest(ctx, sys, sys.slots[i]);
        }
      }
    } else if v.Ok? {
      NothingWritten(sys.slots, sys.cursor, Triple(ev.root, v.value.grantee, ev.cap), sys.generation, v.value.expiresAt);
    }
  }

  lemma NothingWritten(slots: seq<Slot>, cursor: nat, t: Triple, generation: nat, expiresAt: Time)
    requires |slots| == 0
    ensures Remember(slots, cursor, t, generation, expiresAt) == slots && NextCursor(slots, cursor, t, generation) == cursor
  {
  }

  /** After recording, a slot is the new one, or as it was and of another triple or another generation. */
  lemma Written(slots: seq<Slot>, cursor: nat, t: Triple, generation: nat, expiresAt: Time)
    requires |slots| > 0 && cursor < |slots| && OnePerSlot(slots) && generation > 0
    ensures var s := Remember(slots, cursor, t, generation, expiresAt);
            forall i :: 0 <= i < |s| ==>
              s[i] == Slot(t, generation, expiresAt) || (s[i] == slots[i] && (s[i].generation == generation ==> s[i].triple != t))
  {
  }

  lemma SoundStep(ctx: Context, sys: System, ev: Event)
    requires Sound(ctx, sys) && Steady(sys, ev)
    ensures Sound(ctx, After(ctx, sys, ev))
  {
    match ev
    case Admitted(r) => SoundAdmitted(ctx, sys, r);
    case Rewritten(_) =>
    case Checked(_, _, _, _, _) => SoundChecked(ctx, sys, ev);
  }

  // ---- every run --------------------------------------------------------------------------------

  /** `trace[i + 1]` follows from `trace[i]` by `run[i]`. */
  ghost predicate IsRun(ctx: Context, trace: seq<System>, run: seq<Event>) {
    && |trace| == |run| + 1 && Initial(trace[0])
    && forall i :: 0 <= i < |run| ==>
         && (|trace[i].slots| > 0 ==> trace[i].cursor < |trace[i].slots|)
         && trace[i + 1] == After(ctx, trace[i], run[i])
  }

  lemma {:induction false} SoundRun(ctx: Context, trace: seq<System>, run: seq<Event>, n: nat)
    requires IsRun(ctx, trace, run) && n <= |run| && forall i :: 0 <= i < |run| ==> Steady(trace[i], run[i])
    ensures Sound(ctx, trace[n])
  {
    hide Steady, Sound, After;
    if n == 0 {
      StartsSound(ctx, trace[0]);
    } else {
      SoundRun(ctx, trace, run, n - 1);
      SoundStep(ctx, trace[n - 1], run[n - 1]);
    }
  }

  lemma StartsSound(ctx: Context, sys: System)
    requires Initial(sys)
    ensures Sound(ctx, sys)
  {
  }

  /** Cache agreement: in every run, a hit at `now` means that the chain last recorded for the triple verifies at `now`
      against the store as it stands, whatever was admitted, rewritten, recorded and evicted in between. */
  lemma HitsAgree(ctx: Context, trace: seq<System>, run: seq<Event>, n: nat, t: Triple, now: Time)
    requires IsRun(ctx, trace, run) && n <= |run| && forall i :: 0 <= i < |run| ==> Steady(trace[i], run[i])
    requires Hit(trace[n].slots, t, trace[n].generation, now)
    ensures t in trace[n].last
    ensures var v := Verify(At(ctx, trace[n]), trace[n].last[t].hops, t.root, t.cap, now, None);
            v.Ok? && v.value.grantee == t.grantee
  {
    hide Verify, Steady, OnePerSlot, After;
    SoundRun(ctx, trace, run, n);
    var sys := trace[n];
    var i :| 0 <= i < |sys.slots| && Answers(sys.slots[i], t, sys.generation, now);
    assert Honest(ctx, sys, sys.slots[i]);
    VerifiesUntilExpiry(At(ctx, sys), sys.last[t].hops, t.root, t.cap, sys.last[t].at, now, None);
  }

  // ---- the exception ------------------------------------------------------------------------------

  const NO_STORE := Context((_, _, _) => true, _ => 0, None)

  /** The chain 9 -> 1 -> 2 -> 7, without expiry. */
  const PATH := [
    SignedHop(Grant(9, 1, 0, 0, NO_EXPIRY, true), 0),
    SignedHop(Grant(1, 2, 0, 0, NO_EXPIRY, true), 0),
    SignedHop(Grant(2, 7, 0, 0, NO_EXPIRY, true), 0)]

  /** A store without admins. */
  function Plain(entries: seq<Entry>, q: nat): (s: Store) {
    Store(entries, q, false, 0, [], [], false, Pinned)
  }

  /** A hop nobody said anything about is free. */
  lemma UnspokenFree(hop: Hop, root: Key, entries: seq<Entry>, q: nat)
    requires q > 0 && forall i :: 0 <= i < |entries| ==> entries[i].grantee != hop.grantee
    ensures Judge(hop, root, entries, q) == Free
  {
    UnspokenScan(hop, root, entries);
    var p := (e: Entry) => Counts(hop, None, e) && !e.withdrawn;
    var x := Open(hop, None, entries, q);
    var c := (e: Entry) => Counts(hop, None, e) && e.epoch == x;
    CountSome(entries, p);
    CountSome(entries, c);
  }

  lemma UnspokenScan(hop: Hop, root: Key, entries: seq<Entry>)
    requires forall i :: 0 <= i < |entries| ==> entries[i].grantee != hop.grantee
    ensures RootScan(hop, root, entries, None) == Undone(None)
  {
  }

  /** Of the path's hops only the last can be revoked by votes about its grantee, and it is as two voters have it. */
  lemma PathRevoked(entries: seq<Entry>, q: nat)
    requires q > 0 && forall i :: 0 <= i < |entries| ==> entries[i].grantee == 7
    ensures var ctx := NO_STORE.(store := Some(Plain(entries, q)));
            && !RevokedAt(ctx, PATH, 0, 0) && !RevokedAt(ctx, PATH, 0, 1)
            && (RevokedAt(ctx, PATH, 0, 2) <==> Judge(TWO_VOTERS, 9, entries, q) != Free)
  {
    hide Judge, Confirmed;
    var store := Plain(entries, q);
    assert Standing(store) == {};
    var g := GrantorsOf(PATH);
    assert g == [9, 1, 2];
    assert g[..1] == [9] && g[..2] == [9, 1] && g[..3] == g;
    UnspokenFree(HopOf(store, g, 1, 0, 0, {}), 9, entries, q);
    UnspokenFree(HopOf(store, g, 2, 1, 0, {}), 9, entries, q);
    assert HopOf(store, g, 7, 2, 0, {}) == TWO_VOTERS;
  }

  lemma PathUnlimited()
    ensures Soonest(PATH, 3) == NO_EXPIRY
  {
    assert Soonest(PATH, 0) == NO_EXPIRY;
    assert Soonest(PATH, 1) == NO_EXPIRY;
    assert Soonest(PATH, 2) == NO_EXPIRY;
  }

  lemma PathFaults(ctx: Context, now: Time)
    requires !RevokedAt(ctx, PATH, 0, 0) && !RevokedAt(ctx, PATH, 0, 1)
    ensures FirstFault(ctx, PATH, 0, now, 3) == if RevokedAt(ctx, PATH, 0, 2) then Some(Revoked) else None
  {
    hide RevokedAt, FirstFault;
    FaultStep(ctx, now, 0);
    FaultStep(ctx, now, 1);
    FaultStep(ctx, now, 2);
  }

  lemma FaultStep(ctx: Context, now: Time, i: nat)
    requires i < 3
    ensures FirstFault(ctx, PATH, 0, now, 0) == None
    ensures FirstFault(ctx, PATH, 0, now, i) == None ==>
              FirstFault(ctx, PATH, 0, now, i + 1) == if RevokedAt(ctx, PATH, 0, i) then Some(Revoked) else None
  {
    hide RevokedAt;
  }

  /** The path's verdict is the last hop's. */
  lemma PathVerdict(entries: seq<Entry>, q: nat, now: Time)
    requires q > 0 && forall i :: 0 <= i < |entries| ==> entries[i].grantee == 7
    ensures Verify(NO_STORE.(store := Some(Plain(entries, q))), PATH, 9, 0, now, None) ==
            if Judge(TWO_VOTERS, 9, entries, q) != Free then Chain.Result.Err(Revoked)
            else Chain.Result.Ok(Chain.Verdict.Verdict(9, 7, 0, 3, NO_EXPIRY))
  {
    hide Judge, RevokedAt, FirstFault, Soonest;
    PathRevoked(entries, q);
    PathFaults(NO_STORE.(store := Some(Plain(entries, q))), now);
    PathUnlimited();
  }

  /** Without the restriction a hit can lie: whatever epoch a live vote is moved to, earlier or later, there is a run after
      which the memo still allows a chain the store revokes. */
  lemma StaleHit(from: Epoch, to: Epoch, now: Time) returns (trace: seq<System>, run: seq<Event>)
    requires from != to
    ensures IsRun(NO_STORE, trace, run) && |run| == 4 && trace[0].store.entries == []
    ensures run[0].Admitted? && run[1].Admitted? && run[2].Checked? && run[3].Admitted? && MovesEpoch(trace[3].store.entries, run[3].r)
    ensures var sys := trace[4];
            && Hit(sys.slots, Triple(9, 7, 0), sys.generation, now)
            && Triple(9, 7, 0) in sys.last && sys.last[Triple(9, 7, 0)].hops == PATH
            && Verify(At(NO_STORE, sys), PATH, 9, 0, now, None) == Chain.Result.Err(Revoked)
  {
    hide Verify, Admit, MovesEpoch, Judge, Deliver;
    var x, y, r, q := EpochMoveUnseen(from, to, true);
    var s := Deliver([], 2, [x, y]);
    PathVerdict(s, q, now);
    PathVerdict(Admit(s, 2, r).entries, q, now);
    run := [Admitted(x), Admitted(y), Checked(PATH, 9, 0, now, None), Admitted(r)];
    var a := System(Plain([], q), 2, 1, [EMPTY], 0, map[]);
    var b := After(NO_STORE, a, run[0]);
    var c := After(NO_STORE, b, run[1]);
    assert c.store == Plain(s, q);
    var d := After(NO_STORE, c, run[2]);
    var e := After(NO_STORE, d, run[3]);
    trace := [a, b, c, d, e];
    assert d.slots == [Slot(Triple(9, 7, 0), c.generation, NO_EXPIRY)];
    assert Answers(e.slots[0], Triple(9, 7, 0), e.generation, now);
  }
}
