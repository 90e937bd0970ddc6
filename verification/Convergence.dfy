/** What a run of admissions comes to, whatever order its records arrive in; and what the store's generation promises. */
module Convergence {
  import opened Collections
  import opened Votes
  import opened Verdicts
  import opened Admins
  import opened Admission

  /** Admitting a run of records, in order. */
  function Deliver(entries: seq<Entry>, capacity: nat, run: seq<Record>): (after: seq<Entry>) {
    if |run| == 0 then entries
    else Admit(Deliver(entries, capacity, run[..|run| - 1]), capacity, run[|run| - 1]).entries
  }

  /** Every run keeps one entry per triple and never drops one. */
  lemma {:induction false} DeliverKeepsTriples(entries: seq<Entry>, capacity: nat, run: seq<Record>)
    requires OnePerTriple(entries) && |entries| <= capacity
    ensures var s := Deliver(entries, capacity, run);
            && OnePerTriple(s) && |entries| <= |s| <= capacity && |s| <= |entries| + |run|
            && forall i :: 0 <= i < |entries| ==>
                 s[i].issuer == entries[i].issuer && s[i].cap == entries[i].cap && s[i].grantee == entries[i].grantee
  {
    if |run| > 0 {
      DeliverKeepsTriples(entries, capacity, run[..|run| - 1]);
      AdmitKeepsTriples(Deliver(entries, capacity, run[..|run| - 1]), capacity, run[|run| - 1]);
    }
  }

  // ---- a revocation, its withdrawal and a reissue ------------------------------------------------

  /** R1 revokes, W1 withdraws R1, R2 re-revokes over R1; no record names a later one's hash. */
  ghost predicate Related(r1: Record, w1: Record, r2: Record) {
    && SameSubject(w1, r1) && SameSubject(r2, r1)
    && !r1.withdrawal && w1.withdrawal && !r2.withdrawal
    && r1.id != 0 && r2.id != 0 && r1.id != r2.id
    && w1.supersedes == r1.id && w1.epoch == r1.epoch && r2.supersedes == r1.id && r1.supersedes != r2.id
  }

  /** The run says nothing about R1's triple but these records. */
  ghost predicate Only(run: seq<Record>, about: Record, records: set<Record>) {
    forall i :: 0 <= i < |run| && SameSubject(run[i], about) ==> run[i] in records
  }

  /** What is held for the triple part-way: nothing of it, or one of the states R1 and W1 lead to, until R2 arrives. */
  ghost predicate Reached(held: Option<Entry>, run: seq<Record>, r1: Record, w1: Record, r2: Record) {
    if r2 in run then held == Some(LiveEntry(r2))
    else if r1 !in run && w1 !in run then held.None?
    else if w1 !in run then held == Some(LiveEntry(r1))
    else held == Some(Withdrawn(r1, w1, if Earlier(run, r1, w1) then r1.cut else 0))
  }

  /** R1 is delivered before W1 is. */
  predicate Earlier(run: seq<Record>, r1: Record, w1: Record) {
    |run| > 0 &&
    var before := run[..|run| - 1];
    if r1 in before || w1 in before then Earlier(before, r1, w1) else run[|run| - 1] == r1
  }

  function Withdrawn(r1: Record, w1: Record, cut: Id): (e: Entry) {
    Entry(r1.cap, r1.grantee, r1.issuer, r1.id, true, r1.epoch, w1.id, cut)
  }

  lemma ReachedStep(held: Option<Entry>, run: seq<Record>, r: Record, r1: Record, w1: Record, r2: Record)
    requires Related(r1, w1, r2) && r in {r1, w1, r2} && Reached(held, run, r1, w1, r2)
    ensures Reached(Next(held, r), run + [r], r1, w1, r2)
  {
    assert (run + [r])[..|run|] == run;
    if w1 !in run && r1 in run {
      EarlierAlone(run, r1, w1);
    }
  }

  lemma EarlierAlone(run: seq<Record>, r1: Record, w1: Record)
    requires r1 in run && w1 !in run
    ensures Earlier(run, r1, w1)
  {
    var n := |run| - 1;
    assert run == run[..n] + [run[n]];
  }

  lemma {:induction false} RunReaches(entries: seq<Entry>, capacity: nat, run: seq<Record>, r1: Record, w1: Record, r2: Record)
    requires Related(r1, w1, r2) && OnePerTriple(entries) && |entries| + |run| <= capacity
    requires Lookup(entries, r1).None? && Only(run, r1, {r1, w1, r2})
    ensures Reached(Lookup(Deliver(entries, capacity, run), r1), run, r1, w1, r2)
  {
    hide Reached, Admit, Lookup, Next;
    if |run| == 0 {
      StartsReached(Lookup(entries, r1), r1, w1, r2);
    } else {
      var n := |run| - 1;
      RunReaches(entries, capacity, run[..n], r1, w1, r2);
      DeliverKeepsTriples(entries, capacity, run[..n]);
      var before := Deliver(entries, capacity, run[..n]);
      AdmitIsNext(before, capacity, run[n], r1);
      if SameSubject(run[n], r1) {
        ReachedStep(Lookup(before, r1), run[..n], run[n], r1, w1, r2);
      } else {
        OthersIgnored(Lookup(before, r1), run[..n], run[n], r1, w1, r2);
      }
      assert run == run[..n] + [run[n]];
    }
  }

  lemma StartsReached(held: Option<Entry>, r1: Record, w1: Record, r2: Record)
    requires held.None?
    ensures Reached(held, [], r1, w1, r2)
  {
  }

  lemma OthersIgnored(held: Option<Entry>, run: seq<Record>, r: Record, r1: Record, w1: Record, r2: Record)
    requires Related(r1, w1, r2) && !SameSubject(r, r1) && Reached(held, run, r1, w1, r2)
    ensures Reached(held, run + [r], r1, w1, r2)
  {
    assert forall x :: x in run + [r] <==> x in run || x == r;
    assert (run + [r])[..|run|] == run;
  }

  /** Convergence: a revocation, its withdrawal and a reissue, delivered in any order, any number of times each and among
      any other triples' records, end in the reissue's live entry. */
  lemma Converges(entries: seq<Entry>, capacity: nat, run: seq<Record>, r1: Record, w1: Record, r2: Record)
    requires Related(r1, w1, r2) && OnePerTriple(entries) && |entries| + |run| <= capacity
    requires Lookup(entries, r1).None? && Only(run, r1, {r1, w1, r2}) && r1 in run && w1 in run && r2 in run
    ensures Lookup(Deliver(entries, capacity, run), r1) == Some(LiveEntry(r2))
  {
    hide Deliver, Lookup;
    RunReaches(entries, capacity, run, r1, w1, r2);
  }

  // ---- a withdrawal of the reissue -----------------------------------------------------------------------

  /** R1 is an original, W1 withdraws it, R2 re-revokes over it and W2 withdraws R2. */
  ghost predicate Chained(r1: Record, w1: Record, r2: Record, w2: Record) {
    && Related(r1, w1, r2) && r1.supersedes == 0
    && SameSubject(w2, r1) && w2.withdrawal && w2.supersedes == r2.id && w2.epoch == r2.epoch
  }

  /** W2 is heard: delivered before anything else about the triple, or once R2 has been. */
  predicate Heard(run: seq<Record>, r2: Record, w2: Record) {
    |run| > 0 &&
    var n := |run| - 1;
    Heard(run[..n], r2, w2) || (run[n] == w2 && (r2 in run[..n] || forall r <- run[..n] :: !SameSubject(r, r2)))
  }

  /** What is held part-way: R2 withdrawn once W2 is heard, R2 live once it is delivered, and before that something of R1's. */
  ghost predicate ReachedTwo(held: Option<Entry>, run: seq<Record>, r1: Record, r2: Record, w2: Record) {
    if Heard(run, r2, w2) then held.Some? && held.value.withdrawn && held.value.id == r2.id && held.value.epoch == r2.epoch
    else if r2 in run then held == Some(LiveEntry(r2))
    else if forall r <- run :: !SameSubject(r, r1) then held.None?
    else held.Some? && held.value.id == r1.id && held.value.cap == r1.cap && held.value.grantee == r1.grantee &&
         held.value.issuer == r1.issuer
  }

  lemma HeardStep(run: seq<Record>, r: Record, r2: Record, w2: Record)
    ensures Heard(run + [r], r2, w2) <==>
            Heard(run, r2, w2) || (r == w2 && (r2 in run || forall x <- run :: !SameSubject(x, r2)))
  {
    assert (run + [r])[..|run|] == run;
  }

  lemma ReachedTwoStep(held: Option<Entry>, run: seq<Record>, r: Record, r1: Record, w1: Record, r2: Record, w2: Record)
    requires Chained(r1, w1, r2, w2) && ReachedTwo(held, run, r1, r2, w2)
    requires SameSubject(r, r1) ==> r in {r1, w1, r2, w2}
    ensures ReachedTwo(if SameSubject(r, r1) then Next(held, r) else held, run + [r], r1, r2, w2)
  {
    hide Heard;
    HeardStep(run, r, r2, w2);
    assert forall x :: x in run + [r] <==> x in run || x == r;
  }

  lemma {:induction false} RunReachesTwo(entries: seq<Entry>, capacity: nat, run: seq<Record>, r1: Record, w1: Record, r2: Record,
                                         w2: Record)
    requires Chained(r1, w1, r2, w2) && OnePerTriple(entries) && |entries| + |run| <= capacity
    requires Lookup(entries, r1).None? && Only(run, r1, {r1, w1, r2, w2})
    ensures ReachedTwo(Lookup(Deliver(entries, capacity, run), r1), run, r1, r2, w2)
  {
    hide Admit, Lookup, Next, ReachedTwo;
    if |run| == 0 {
      NothingReached(Lookup(entries, r1), r1, r2, w2);
    } else {
      var n := |run| - 1;
      RunReachesTwo(entries, capacity, run[..n], r1, w1, r2, w2);
      DeliverKeepsTriples(entries, capacity, run[..n]);
      var before := Deliver(entries, capacity, run[..n]);
      AdmitIsNext(before, capacity, run[n], r1);
      ReachedTwoStep(Lookup(before, r1), run[..n], run[n], r1, w1, r2, w2);
      assert run == run[..n] + [run[n]];
    }
  }

  lemma NothingReached(held: Option<Entry>, r1: Record, r2: Record, w2: Record)
    requires held.None?
    ensures ReachedTwo(held, [], r1, r2, w2)
  {
  }

  /** The limit of convergence: with a withdrawal of the reissue too, a run in which the reissue is delivered ends with it withdrawn
      exactly when that withdrawal comes before everything else about the triple, or at some time after the reissue; otherwise it
      was dropped, and the run ends with the reissue live. */
  lemma WithdrawnIff(entries: seq<Entry>, capacity: nat, run: seq<Record>, r1: Record, w1: Record, r2: Record, w2: Record)
    requires Chained(r1, w1, r2, w2) && OnePerTriple(entries) && |entries| + |run| <= capacity && r2 in run
    requires Lookup(entries, r1).None? && Only(run, r1, {r1, w1, r2, w2})
    ensures var held := Lookup(Deliver(entries, capacity, run), r1);
            && held.Some? && held.value.id == r2.id && (held.value.withdrawn <==> Heard(run, r2, w2))
            && (!Heard(run, r2, w2) ==> held == Some(LiveEntry(r2)))
  {
    hide Deliver, Lookup, Heard;
    RunReachesTwo(entries, capacity, run, r1, w1, r2, w2);
  }

  /** So two orders of the same records end apart: the withdrawal of the reissue between the revocation and the reissue is lost. */
  lemma LostWithdrawal(r1: Record, w1: Record, r2: Record, w2: Record, capacity: nat)
    requires Chained(r1, w1, r2, w2) && capacity >= 3
    ensures Lookup(Deliver([], capacity, [r1, w2, r2]), r1) == Some(LiveEntry(r2))
    ensures var held := Lookup(Deliver([], capacity, [r1, r2, w2]), r1); held.Some? && held.value.withdrawn
  {
    hide Deliver, Lookup;
    NothingHeld(r1);
    var s, t := [r1, w2, r2], [r1, r2, w2];
    assert [] + [r1] == [r1] && [r1] + [w2] == [r1, w2] && [r1, w2] + [r2] == s && [r1, r2] + [w2] == t;
    HeardStep([], r1, r2, w2);
    HeardStep([r1], w2, r2, w2);
    HeardStep([r1, w2], r2, r2, w2);
    HeardStep([r1, r2], w2, r2, w2);
    assert r1 in [r1] && SameSubject(r1, r2);
    WithdrawnIff([], capacity, s, r1, w1, r2, w2);
    WithdrawnIff([], capacity, t, r1, w1, r2, w2);
  }

  // ---- the revocation and its withdrawal alone ----------------------------------------------------------------

  /** With the revocation and its withdrawal alone, every order ends withdrawn at the revocation's id, in its epoch. The
      cut alone remembers the order: a tombstone keeps no line of the vote it undid. */
  lemma EndsWithdrawn(entries: seq<Entry>, capacity: nat, run: seq<Record>, r1: Record, w1: Record)
    requires OnePerTriple(entries) && |entries| + |run| <= capacity && Lookup(entries, r1).None?
    requires SameSubject(w1, r1) && !r1.withdrawal && w1.withdrawal && r1.id != 0 && w1.supersedes == r1.id && w1.epoch == r1.epoch
    requires Only(run, r1, {r1, w1}) && r1 in run && w1 in run
    ensures Lookup(Deliver(entries, capacity, run), r1) ==
            Some(Withdrawn(r1, w1, if Earlier(run, r1, w1) then r1.cut else 0))
  {
    hide Deliver, Lookup;
    var r2 := r1.(id := r1.id + r1.supersedes + 1, supersedes := r1.id);
    assert forall i :: 0 <= i < |run| ==> run[i] != r2;
    RunReaches(entries, capacity, run, r1, w1, r2);
  }

  /** So the pair converges to one entry for every order exactly when the revocation drew no line. */
  lemma PairConvergesIff(r1: Record, w1: Record, capacity: nat)
    requires SameSubject(w1, r1) && !r1.withdrawal && w1.withdrawal && r1.id != 0 && w1.supersedes == r1.id && w1.epoch == r1.epoch
    requires capacity >= 2
    ensures r1.cut == 0 <==>
            forall s, t :: Ends(s, r1, w1, capacity) && Ends(t, r1, w1, capacity) ==>
              Lookup(Deliver([], capacity, s), r1) == Lookup(Deliver([], capacity, t), r1)
  {
    hide Deliver, Lookup;
    assert Lookup([], r1).None? by { NothingHeld(r1); }
    if r1.cut == 0 {
      forall s, t | Ends(s, r1, w1, capacity) && Ends(t, r1, w1, capacity)
        ensures Lookup(Deliver([], capacity, s), r1) == Lookup(Deliver([], capacity, t), r1)
      {
        EndsWithdrawn([], capacity, s, r1, w1);
        EndsWithdrawn([], capacity, t, r1, w1);
      }
    } else {
      var s, t := [r1, w1], [w1, r1];
      EndsWithdrawn([], capacity, s, r1, w1);
      EndsWithdrawn([], capacity, t, r1, w1);
      assert s[..1] == [r1] && t[..1] == [w1];
      assert Earlier(s[..1], r1, w1) && !Earlier(t[..1], r1, w1);
      assert Ends(s, r1, w1, capacity) && Ends(t, r1, w1, capacity);
    }
  }

  /** A run of the two records, each delivered, that fits. */
  ghost predicate Ends(run: seq<Record>, r1: Record, w1: Record, capacity: nat) {
    |run| <= capacity && Only(run, r1, {r1, w1}) && r1 in run && w1 in run
  }

  lemma NothingHeld(r: Record)
    ensures Lookup([], r).None?
  {
  }

  // ---- the latch, over admissions --------------------------------------------------------------------

  /** A record about another hop, or a withdrawal in `epoch` that is not the root's, whether its vote is held or not. */
  predicate LeavesEpoch(hop: Hop, root: Key, epoch: Epoch, r: Record) {
    r.cap != hop.cap || r.grantee != hop.grantee || (r.withdrawal && r.epoch == epoch && r.issuer != root)
  }

  lemma AdmitWithdraws(entries: seq<Entry>, capacity: nat, hop: Hop, root: Key, epoch: Epoch, r: Record)
    requires LeavesEpoch(hop, root, epoch, r)
    ensures Withdraws(hop, root, epoch, entries, Admit(entries, capacity, r).entries)
  {
    hide Find;
  }

  lemma {:induction false} DeliverWithdraws(entries: seq<Entry>, capacity: nat, hop: Hop, root: Key, epoch: Epoch, run: seq<Record>)
    requires forall i :: 0 <= i < |run| ==> LeavesEpoch(hop, root, epoch, run[i])
    ensures Withdraws(hop, root, epoch, entries, Deliver(entries, capacity, run))
  {
    hide Admit, Withdraws;
    if |run| == 0 {
      WithdrawsNothing(hop, root, epoch, entries);
    } else {
      var n := |run| - 1;
      DeliverWithdraws(entries, capacity, hop, root, epoch, run[..n]);
      var before := Deliver(entries, capacity, run[..n]);
      AdmitWithdraws(before, capacity, hop, root, epoch, run[n]);
      WithdrawsOn(hop, root, epoch, entries, before, Deliver(entries, capacity, run));
    }
  }

  /** The latch over every run of admissions: a hop with `q` counted votes in its open epoch stays revoked through any run of
      records about other hops and of withdrawals in that epoch, of votes held or not, in any order and with any repetition,
      until `q` counted issuers have left it. */
  lemma LatchOverRun(hop: Hop, root: Key, q: nat, entries: seq<Entry>, capacity: nat, run: seq<Record>, floor: Option<Epoch>,
                     epoch: Epoch)
    requires hop.roots.Pinned? && RootScan(hop, root, entries, None) == Undone(floor)
    requires epoch == Open(hop, floor, entries, q) && CastIn(hop, floor, entries, epoch) >= q
    requires forall i :: 0 <= i < |run| ==> LeavesEpoch(hop, root, epoch, run[i])
    requires Left(hop, floor, Deliver(entries, capacity, run), epoch) < q
    ensures Judge(hop, root, Deliver(entries, capacity, run), q) in {ByVotes, Latched(epoch)}
  {
    hide Deliver, Judge, RootScan, Open, CastIn, Left, LeavesEpoch, Withdraws;
    DeliverWithdraws(entries, capacity, hop, root, epoch, run);
    LatchHolds(hop, root, q, entries, Deliver(entries, capacity, run), floor, epoch);
  }

  // ---- the generation ------------------------------------------------------------------------------

  /** Nothing a verdict reads differs. */
  ghost predicate SameVotes(s: seq<Entry>, t: seq<Entry>) {
    |s| == |t| && forall i :: 0 <= i < |s| ==> t[i] == s[i].(id := t[i].id, held := t[i].held)
  }

  /** A reissue over a live vote, chained to it, that moves its epoch. */
  predicate MovesEpoch(entries: seq<Entry>, r: Record) {
    var held := Lookup(entries, r);
    && held.Some? && !held.value.withdrawn && !r.withdrawal
    && r.id != held.value.id && r.supersedes == held.value.id && r.epoch != held.value.epoch
  }

  /** An admission that leaves the generation alone changes nothing a verdict reads, but for a reissue that moves a live
      vote's epoch. */
  lemma QuietAdmission(entries: seq<Entry>, capacity: nat, r: Record)
    requires !Admit(entries, capacity, r).bumped && !MovesEpoch(entries, r)
    ensures SameVotes(entries, Admit(entries, capacity, r).entries)
  {
  }

  lemma SameVotesCount(hop: Hop, s: seq<Entry>, t: seq<Entry>, p: Entry -> bool)
    requires SameVotes(s, t) && forall i :: 0 <= i < |s| ==> p(s[i]) == p(t[i])
    ensures Count(s, p) == Count(t, p)
  {
    CountAcross(s, t, p);
  }

  lemma {:induction false} SameVotesScan(hop: Hop, root: Key, s: seq<Entry>, t: seq<Entry>, floor: Option<Epoch>)
    requires hop.roots.Pinned? && SameVotes(s, t)
    ensures RootScan(hop, root, s, floor) == RootScan(hop, root, t, floor)
  {
    if |s| > 0 {
      SameVotesScan(hop, root, s[1..], t[1..], floor);
      SameVotesScan(hop, root, s[1..], t[1..], Some(s[0].epoch));
    }
  }

  lemma SameVotesJudge(hop: Hop, root: Key, s: seq<Entry>, t: seq<Entry>, q: nat)
    requires hop.roots.Pinned? && SameVotes(s, t)
    ensures Judge(hop, root, s, q) == Judge(hop, root, t, q)
  {
    SameVotesScan(hop, root, s, t, None);
    var word := RootScan(hop, root, s, None);
    if word.Undone? {
      var floor := word.floor;
      forall i | 0 <= i < |s|
        ensures Counts(hop, floor, s[i]) == Counts(hop, floor, t[i])
      {
      }
      hide Counts, RootScan, Open;
      var x, y := Open(hop, floor, s, q), Open(hop, floor, t, q);
      forall e: Epoch
        ensures Closed(hop, floor, s, e, q) == Closed(hop, floor, t, e, q)
      {
        SameVotesCount(hop, s, t, v => Counts(hop, floor, v) && HasLeft(e, v));
      }
      OpenEpochUnique(hop, floor, s, q, x, y);
      SameVotesCount(hop, s, t, e => Counts(hop, floor, e) && !e.withdrawn);
      SameVotesCount(hop, s, t, e => Counts(hop, floor, e) && e.epoch == x);
      SameVotesCount(hop, s, t, e => Counts(hop, floor, e) && e.epoch == x && e.withdrawn);
    }
  }

  lemma SameVotesHop(s: Store, entries: seq<Entry>, grantors: seq<Key>, grantee: Key, i: nat, cap: Cap, standing: set<Key>)
    requires s.roots.Pinned? && SameVotes(s.entries, entries) && i < |grantors|
    ensures HopRevoked(s, grantors, grantee, i, cap, standing) ==
            HopRevoked(s.(entries := entries), grantors, grantee, i, cap, standing)
  {
    hide Judge;
    SameVotesJudge(HopOf(s, grantors, grantee, i, cap, standing), grantors[0], s.entries, entries, Quorum(s));
  }

  lemma SameVotesConfirmed(s: Store, entries: seq<Entry>, eligible: Option<set<Key>>)
    ensures Confirmed(s, eligible) == Confirmed(s.(entries := entries), eligible)
  {
    hide Justified;
    var t := s.(entries := entries);
    forall u: set<Key>
      ensures ClosedUnder(s, eligible, u) == ClosedUnder(t, eligible, u)
    {
      forall ad: Admin
        ensures Justified(s, u, eligible, ad) == Justified(t, u, eligible, ad)
      {
        SameJustified(s, entries, u, eligible, ad);
      }
    }
  }

  lemma SameJustified(s: Store, entries: seq<Entry>, u: set<Key>, eligible: Option<set<Key>>, ad: Admin)
    ensures Justified(s, u, eligible, ad) == Justified(s.(entries := entries), u, eligible, ad)
  {
    var t := s.(entries := entries);
    forall h | 1 <= h < |ad.chain|
      ensures HopStands(s, u, eligible, ad, h) == HopStands(t, u, eligible, ad, h)
    {
      assert Confirmers(s, s.confirms, u, eligible, ad, h) == Confirmers(t, t.confirms, u, eligible, ad, h);
    }
  }

  /** Under one pinned root, an admission that leaves the generation alone leaves who stands and every hop's verdict as
      they were -- unless it is a reissue that moves a live vote's epoch. */
  lemma GenerationCovers(s: Store, capacity: nat, r: Record, grantors: seq<Key>, grantee: Key, i: nat, cap: Cap)
    requires s.roots.Pinned? && !Admit(s.entries, capacity, r).bumped && !MovesEpoch(s.entries, r) && i < |grantors|
    ensures var t := s.(entries := Admit(s.entries, capacity, r).entries);
            && Standing(s) == Standing(t)
            && HopRevoked(s, grantors, grantee, i, cap, Standing(s)) == HopRevoked(t, grantors, grantee, i, cap, Standing(t))
  {
    hide Confirmed, HopRevoked, Admit, MovesEpoch;
    var entries := Admit(s.entries, capacity, r).entries;
    var t := s.(entries := entries);
    QuietAdmission(s.entries, capacity, r);
    SameVotesConfirmed(s, entries, None);
    var c := Confirmed(s, None);
    forall ad: Admin
      ensures AdminRevoked(s, ad, c) == AdminRevoked(t, ad, c)
    {
      forall h | 0 <= h < |ad.chain|
        ensures HopRevoked(s, Grantors(ad.chain), ad.chain[h].grantee, h, s.adminCap, c) ==
                HopRevoked(t, Grantors(ad.chain), ad.chain[h].grantee, h, t.adminCap, c)
      {
        SameVotesHop(s, entries, Grantors(ad.chain), ad.chain[h].grantee, h, s.adminCap, c);
      }
    }
    assert FirstStratum(s) == FirstStratum(t);
    SameVotesConfirmed(s, entries, Some(FirstStratum(s)));
    SameVotesHop(s, entries, grantors, grantee, i, cap, Standing(s));
  }

  // ---- where the generation falls short ---------------------------------------------------------------

  const TWO_VOTERS := Hop(0, 7, [9, 1, 2], false, false, {}, Some({}), Pinned)

  /** `first` has withdrawn in epoch `low`; voter 2's vote is live in epoch `x`. */
  function TwoVotes(first: Key, low: Epoch, x: Epoch, id: Id, cuts: (Id, Id)): (s: seq<Entry>) {
    [Entry(0, 7, first, 3, true, low, 4, cuts.0), Entry(0, 7, 2, id, false, x, id, cuts.1)]
  }

  lemma CountTwo(a: Entry, b: Entry, p: Entry -> bool)
    ensures Count([a, b], p) == (if p(a) then 1 else 0) + if p(b) then 1 else 0
  {
    assert [a, b][..1] == [a];
    assert [a][..0] == [];
  }

  /** Two voters at quorum 2: the latch holds exactly while both voted in the same epoch. */
  lemma LatchVerdict(low: Epoch, x: Epoch, id: Id, cuts: (Id, Id))
    requires low <= x
    ensures Judge(TWO_VOTERS, 9, TwoVotes(1, low, x, id, cuts), 2) == if x == low then Latched(low) else Free
  {
    var s := TwoVotes(1, low, x, id, cuts);
    var a, b := s[0], s[1];
    assert s == [a, b];
    assert RootScan(TWO_VOTERS, 9, s, None) == Undone(None) by {
      assert s[1..] == [b] && [b][1..] == [];
      assert RootScan(TWO_VOTERS, 9, [b], None) == Undone(None);
    }
    CountTwo(a, b, e => Counts(TWO_VOTERS, None, e) && !e.withdrawn);
    var o := Open(TWO_VOTERS, None, s, 2);
    assert Counts(TWO_VOTERS, None, a) && Counts(TWO_VOTERS, None, b);
    forall y: Epoch
      ensures Closed(TWO_VOTERS, None, s, y, 2) <==> HasLeft(y, a) && HasLeft(y, b)
    {
      CountTwo(a, b, e => Counts(TWO_VOTERS, None, e) && HasLeft(y, e));
    }
    CountTwo(a, b, e => Counts(TWO_VOTERS, None, e) && e.epoch == o);
    CountTwo(a, b, e => Counts(TWO_VOTERS, None, e) && e.epoch == o && e.withdrawn);
    hide Counts, Closed, Open, RootScan;
    if x == low {
      assert IsOpenEpoch(TWO_VOTERS, None, s, 2, low);
      OpenEpochUnique(TWO_VOTERS, None, s, 2, low, o);
    }
  }

  /** The root's undo at `low` and one vote at quorum 1: the vote counts exactly while it is above the undo. */
  lemma UndoVerdict(low: Epoch, x: Epoch, id: Id, cuts: (Id, Id))
    requires low <= x
    ensures Judge(TWO_VOTERS, 9, TwoVotes(9, low, x, id, cuts), 1) != Free <==> x > low
  {
    var s := TwoVotes(9, low, x, id, cuts);
    var a, b := s[0], s[1];
    assert s[1..] == [b] && [b][1..] == [];
    assert RootScan(TWO_VOTERS, 9, [b], Some(low)) == Undone(Some(low));
    assert RootScan(TWO_VOTERS, 9, s, None) == Undone(Some(low));
    assert !Counts(TWO_VOTERS, Some(low), a) && (Counts(TWO_VOTERS, Some(low), b) <==> x > low);
    hide Judge, RootScan, Counts;
    QuorumOne(TWO_VOTERS, 9, s);
    assert forall e :: e in s <==> e == a || e == b;
  }

  /** The records that leave two votes so: a withdrawal come first, and a vote. */
  function Withdrawing(first: Key, low: Epoch): (r: Record) { Record(true, first, 0, 7, low, 3, 0, 4) }
  function Voting(x: Epoch): (r: Record) { Record(false, 2, 0, 7, x, 0, 0, 5) }

  lemma TwoDelivered(first: Key, low: Epoch, x: Epoch)
    requires first != 2
    ensures var a, b := Withdrawing(first, low), Voting(x);
            && Admit(Admit([], 2, a).entries, 2, b).entries == TwoVotes(first, low, x, 5, (0, 0))
            && Deliver([], 2, [a, b]) == TwoVotes(first, low, x, 5, (0, 0))
  {
    var a, b := Withdrawing(first, low), Voting(x);
    assert [a, b][..1] == [a] && [a][..0] == [];
    assert Deliver([], 2, [a]) == Admit([], 2, a).entries;
  }

  lemma VoteMoves(first: Key, low: Epoch, from: Epoch, to: Epoch)
    requires first != 2 && from != to
    ensures var s, r := TwoVotes(first, low, from, 5, (0, 0)), Record(false, 2, 0, 7, to, 5, 0, 6);
            && OnePerTriple(s) && MovesEpoch(s, r)
            && Admit(s, 2, r) == Step(TwoVotes(first, low, to, 6, (0, 0)), Ok, false, true)
  {
    var s, r := TwoVotes(first, low, from, 5, (0, 0)), Record(false, 2, 0, 7, to, 5, 0, 6);
    assert Find(s, r) == 1 by { FindUnique(s, r, 1); }
    assert Admit(s, 2, r).entries == TwoVotes(first, low, to, 6, (0, 0));
  }

  /** Whatever two epochs a live vote is moved between, earlier or later, and whether it is to revoke or to free: there are two
      records and a quorum with a verdict that the reissue changes so, while the generation stays where it was. */
  lemma EpochMoveUnseen(from: Epoch, to: Epoch, revokes: bool) returns (a: Record, b: Record, r: Record, q: nat)
    requires from != to
    ensures var s := Deliver([], 2, [a, b]);
            var step := Admit(s, 2, r);
            && s == Admit(Admit([], 2, a).entries, 2, b).entries && OnePerTriple(s) && MovesEpoch(s, r) && |s| == 2 && q > 0
            && step.result == Ok && !step.bumped
            && (Judge(TWO_VOTERS, 9, s, q) == Free <==> revokes)
            && (Judge(TWO_VOTERS, 9, step.entries, q) == Free <==> !revokes)
            && |step.entries| == 2 && forall i :: 0 <= i < 2 ==> s[i].grantee == step.entries[i].grantee == 7
  {
    var low := if from < to then from else to;
    var first := if (to < from) == revokes then 1 else 9;
    q := if first == 1 then 2 else 1;
    a, b, r := Withdrawing(first, low), Voting(from), Record(false, 2, 0, 7, to, 5, 0, 6);
    hide Judge, Deliver, Admit, MovesEpoch;
    TwoDelivered(first, low, from);
    VoteMoves(first, low, from, to);
    if first == 1 {
      LatchVerdict(low, from, 5, (0, 0));
      LatchVerdict(low, to, 6, (0, 0));
    } else {
      UndoVerdict(low, from, 5, (0, 0));
      UndoVerdict(low, to, 6, (0, 0));
    }
  }
}
