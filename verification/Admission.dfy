/** Admitting revocations and withdrawals into the store, chain/revocation.c: a small replicated-state machine that has to
    tolerate arrival order. */
module Admission {
  import opened Collections
  import opened Votes
  import opened Verdicts

  datatype Result = Ok | Refused(standing: nat) | UnknownTarget | StoreFull

  /** A record that has been opened: a revocation, or a withdrawal of the revocation it names. `id` is the hash of its
      bytes. */
  datatype Record = Record(withdrawal: bool, issuer: Key, cap: Cap, grantee: Key, epoch: Epoch, supersedes: Id, cut: Id, id: Id)

  /** What an admission leaves: the entries, the answer, whether the generation moves, and whether the manifest's
      deficit for the triple is drained. */
  datatype Step = Step(entries: seq<Entry>, result: Result, bumped: bool, drained: bool)

  predicate SameTriple(e: Entry, r: Record) {
    e.issuer == r.issuer && e.cap == r.cap && e.grantee == r.grantee
  }

  /** Where the triple's entry is, or the length. */
  function Find(entries: seq<Entry>, r: Record): (at: nat)
    ensures at <= |entries|
    ensures at < |entries| ==> SameTriple(entries[at], r)
    ensures forall i :: 0 <= i < at ==> !SameTriple(entries[i], r)
  {
    if |entries| == 0 then 0
    else if SameTriple(entries[0], r) then 0
    else
      var at := 1 + Find(entries[1..], r);
      assert forall i :: 1 <= i < at ==> entries[i] == entries[1..][i - 1];
      at
  }

  /** A revocation's entry while it is live. */
  function LiveEntry(r: Record): (e: Entry) {
    Entry(r.cap, r.grantee, r.issuer, r.id, false, r.epoch, r.id, r.cut)
  }

  /** A withdrawal's entry for a triple never held: it names the revocation it undoes. */
  function Tombstone(r: Record): (e: Entry) {
    Entry(r.cap, r.grantee, r.issuer, r.supersedes, true, r.epoch, r.id, 0)
  }

  /** Admission, once signature and standing are settled. */
  function Admit(entries: seq<Entry>, capacity: nat, r: Record): (s: Step) {
    var at := Find(entries, r);
    if at == |entries| then
      if |entries| >= capacity then Step(entries, StoreFull, false, false)
      else Step(entries + [if r.withdrawal then Tombstone(r) else LiveEntry(r)], Ok, true, !r.withdrawal)
    else
      var e := entries[at];
      if r.withdrawal then
        if e.id != r.supersedes || e.epoch != r.epoch then Step(entries, UnknownTarget, false, false)
        else Step(entries[at := e.(withdrawn := true, held := r.id)], Ok, !e.withdrawn, false)
      else if e.withdrawn then
        if e.id == r.id then Step(entries, Ok, false, true)
        else if r.supersedes == 0 then Step(entries, UnknownTarget, false, true)
        else Step(entries[at := LiveEntry(r)], Ok, true, true)
      else if e.id != r.id && r.supersedes == e.id then
        Step(entries[at := e.(id := r.id, held := r.id, epoch := r.epoch, cut := r.cut)], Ok, e.cut != r.cut, true)
      else Step(entries, Ok, false, true)
  }

  class RevocationStore {
    const capacity: nat
    var entries: seq<Entry>
    var generation: nat

    ghost predicate Valid()
      reads this
    {
      |entries| <= capacity && OnePerTriple(entries)
    }

    constructor (n: nat)
      ensures Valid() && entries == [] && capacity == n && generation == 1
    {
      capacity, entries, generation := n, [], 1;
    }

    method FindEntry(r: Record) returns (at: nat)
      requires Valid()
      ensures at == Find(entries, r)
    {
      at := 0;
      assert entries[0..] == entries;
      while at < |entries| && !SameTriple(entries[at], r)
        invariant 0 <= at <= |entries| && Find(entries, r) == at + Find(entries[at..], r)
      {
        assert entries[at..][1..] == entries[at + 1..];
        at := at + 1;
      }
    }

    /** Admits a record whose standing is `standing` (0: it checked out). */
    method AdmitRecord(r: Record, standing: nat) returns (result: Result, drained: bool)
      requires Valid()
      modifies this
      ensures Valid()
      ensures standing != 0 ==> result == Refused(standing) && !drained && entries == old(entries) && generation == old(generation)
      ensures standing == 0 ==>
                var s := Admit(old(entries), capacity, r);
                && entries == s.entries && result == s.result && drained == s.drained
                && generation == old(generation) + if s.bumped then 1 else 0
    {
      if standing != 0 {
        return Refused(standing), false;
      }
      AdmitKeepsTriples(entries, capacity, r);
      var at := FindEntry(r);
      if r.withdrawal {
        if at == |entries| {
          if |entries| >= capacity {
            return StoreFull, false;
          }
          entries := entries + [Tombstone(r)];
          generation := generation + 1;
          return Ok, false;
        }
        if entries[at].id != r.supersedes || entries[at].epoch != r.epoch {
          return UnknownTarget, false;
        }
        if !entries[at].withdrawn {
          generation := generation + 1;
        }
        entries := entries[at := entries[at].(withdrawn := true, held := r.id)];
        return Ok, false;
      }
      if at < |entries| {
        var e := entries[at];
        if e.withdrawn {
          if r.id == e.id {
            return Ok, true;
          }
          if r.supersedes == 0 {
            return UnknownTarget, true;
          }
          entries := entries[at := LiveEntry(r)];
          generation := generation + 1;
          return Ok, true;
        }
        if r.id != e.id && r.supersedes == e.id {
          if e.cut != r.cut {
            generation := generation + 1;
          }
          entries := entries[at := e.(id := r.id, held := r.id, epoch := r.epoch, cut := r.cut)];
        }
        return Ok, true;
      }
      if |entries| >= capacity {
        return StoreFull, false;
      }
      entries := entries + [LiveEntry(r)];
      generation := generation + 1;
      return Ok, true;
    }
  }

  // ---- what every admission keeps --------------------------------------------------------------

  /** One entry per triple stays one, nothing is dropped, and every entry keeps its place and its triple. */
  lemma AdmitKeepsTriples(entries: seq<Entry>, capacity: nat, r: Record)
    requires OnePerTriple(entries) && |entries| <= capacity
    ensures var s := Admit(entries, capacity, r).entries;
            && OnePerTriple(s) && |entries| <= |s| <= capacity
            && forall i :: 0 <= i < |entries| ==>
                 s[i].issuer == entries[i].issuer && s[i].cap == entries[i].cap && s[i].grantee == entries[i].grantee
  {
  }

  /** What is held for a triple. */
  function Lookup(entries: seq<Entry>, r: Record): (e: Option<Entry>) {
    var at := Find(entries, r);
    if at < |entries| then Some(entries[at]) else None
  }

  lemma FindUnique(entries: seq<Entry>, r: Record, i: nat)
    requires OnePerTriple(entries) && i < |entries| && SameTriple(entries[i], r)
    ensures Find(entries, r) == i
  {
  }

  /** What one record does to what is held for its own triple, there being room. */
  function Next(held: Option<Entry>, r: Record): (e: Option<Entry>) {
    match held
    case None => Some(if r.withdrawal then Tombstone(r) else LiveEntry(r))
    case Some(e) =>
      if r.withdrawal then
        if e.id != r.supersedes || e.epoch != r.epoch then Some(e) else Some(e.(withdrawn := true, held := r.id))
      else if e.withdrawn then
        if e.id == r.id || r.supersedes == 0 then Some(e) else Some(LiveEntry(r))
      else if e.id != r.id && r.supersedes == e.id then Some(LiveEntry(r))
      else Some(e)
  }

  predicate SameSubject(r: Record, s: Record) {
    r.issuer == s.issuer && r.cap == s.cap && r.grantee == s.grantee
  }

  /** One place is written: the triple's own, or a new one at the end. */
  lemma AdmitAt(entries: seq<Entry>, capacity: nat, r: Record)
    requires |entries| < capacity
    ensures var s, at := Admit(entries, capacity, r).entries, Find(entries, r);
            if at == |entries| then |s| == |entries| + 1 && s[..at] == entries && Some(s[at]) == Next(None, r)
            else |s| == |entries| && Some(s[at]) == Next(Some(entries[at]), r) && forall i :: 0 <= i < |s| && i != at ==> s[i] == entries[i]
    ensures var s, at := Admit(entries, capacity, r).entries, Find(entries, r); at < |s| && SameTriple(s[at], r)
  {
    hide Find;
  }

  lemma FindAlike(entries: seq<Entry>, r: Record, about: Record)
    requires SameSubject(r, about)
    ensures Find(entries, r) == Find(entries, about)
  {
  }

  lemma FindNone(entries: seq<Entry>, r: Record)
    requires forall i :: 0 <= i < |entries| ==> !SameTriple(entries[i], r)
    ensures Find(entries, r) == |entries|
  {
  }

  /** A record changes what is held for its own triple and for no other. */
  lemma AdmitIsNext(entries: seq<Entry>, capacity: nat, r: Record, about: Record)
    requires OnePerTriple(entries) && |entries| < capacity
    ensures Lookup(Admit(entries, capacity, r).entries, about) ==
            if SameSubject(r, about) then Next(Lookup(entries, about), r) else Lookup(entries, about)
  {
    hide Admit, Next, Find;
    var s := Admit(entries, capacity, r).entries;
    AdmitKeepsTriples(entries, capacity, r);
    AdmitAt(entries, capacity, r);
    var at, was := Find(entries, r), Find(entries, about);
    if was < |entries| {
      FindUnique(s, about, was);
      if SameSubject(r, about) {
        FindUnique(entries, r, was);
      }
    } else if SameSubject(r, about) {
      FindAlike(entries, r, about);
      FindUnique(s, about, |entries|);
    } else {
      FindNone(s, about);
    }
  }

  // ---- what the answer says -----------------------------------------------------------------------------

  /** The record takes the triple's place: nothing is held, or it supersedes the live entry held -- or something, over a
      withdrawn one. */
  predicate TakesPlace(held: Option<Entry>, r: Record) {
    held.None? ||
    (held.value.id != r.id && if held.value.withdrawn then r.supersedes != 0 else r.supersedes == held.value.id)
  }

  /** Each answer, exactly. STORE_FULL: nothing is held for the triple and there is no room. UNKNOWN_TARGET: an entry is held, and
      the record withdraws another id or epoch, or revokes afresh over a withdrawn one without a predecessor. Ok otherwise. Any
      answer but Ok leaves the entries and the generation. */
  lemma AnswerMeans(entries: seq<Entry>, capacity: nat, r: Record)
    ensures var step, held := Admit(entries, capacity, r), Lookup(entries, r);
            && (step.result == StoreFull <==> held.None? && |entries| >= capacity)
            && (step.result == UnknownTarget <==>
                  held.Some? && if r.withdrawal then held.value.id != r.supersedes || held.value.epoch != r.epoch
                                else held.value.withdrawn && held.value.id != r.id && r.supersedes == 0)
            && (step.result == StoreFull || step.result == UnknownTarget || step.result == Ok)
            && (step.result != Ok ==> step.entries == entries && !step.bumped)
            && (step.drained <==> !r.withdrawal && step.result != StoreFull)
  {
    hide Find;
  }

  /** What Ok leaves for the triple, field by field: for a withdrawal the vote of the id and epoch it names, withdrawn by it; for a
      revocation the revocation itself where it takes its place, and otherwise the entry held, untouched. */
  lemma OkMeans(entries: seq<Entry>, capacity: nat, r: Record)
    requires OnePerTriple(entries) && |entries| <= capacity && Admit(entries, capacity, r).result == Ok
    ensures var held, after := Lookup(entries, r), Lookup(Admit(entries, capacity, r).entries, r);
            && after.Some?
            && var e := after.value;
               if r.withdrawal then
                 e.withdrawn && e.id == r.supersedes && e.epoch == r.epoch && e.held == r.id &&
                 e.cut == if held.Some? then held.value.cut else 0
               else if TakesPlace(held, r) then
                 !e.withdrawn && e.id == r.id && e.epoch == r.epoch && e.held == r.id && e.cut == r.cut
               else after == held
    ensures var e := Lookup(Admit(entries, capacity, r).entries, r).value;
            e.issuer == r.issuer && e.cap == r.cap && e.grantee == r.grantee
  {
    var s, at := Admit(entries, capacity, r).entries, Find(entries, r);
    AdmitKeepsTriples(entries, capacity, r);
    assert at < |s| && SameTriple(s[at], r);
    FindUnique(s, r, at);
  }

  /** The generation moves exactly when an entry is added, or one changes whether it is withdrawn or where its line is. */
  lemma BumpedIff(entries: seq<Entry>, capacity: nat, r: Record)
    ensures var step := Admit(entries, capacity, r);
            step.bumped <==>
              |step.entries| != |entries| ||
              exists i :: 0 <= i < |entries| && (step.entries[i].withdrawn != entries[i].withdrawn || step.entries[i].cut != entries[i].cut)
  {
    hide Find;
    var step, at := Admit(entries, capacity, r), Find(entries, r);
    if at < |entries| {
      assert forall i :: 0 <= i < |entries| && i != at ==> step.entries[i] == entries[i];
    }
  }
}
