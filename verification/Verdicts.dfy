/** What verdicts on a hop do not depend on, and what they keep. */
module Verdicts {
  import opened Collections
  import opened Votes

  // ---- the root's word ---------------------------------------------------------------------

  /** An entry of a root's that counts for the hop. */
  predicate RootsVote(hop: Hop, root: Key, e: Entry) {
    Counts(hop, None, e) && RootEntry(hop, root, e)
  }

  lemma CountsAbove(hop: Hop, floor: Option<Epoch>, e: Entry)
    ensures Counts(hop, floor, e) <==> Counts(hop, None, e) && Above(floor, e.epoch)
  {
  }

  /** A live root vote above every undo is heard wherever it stands. */
  lemma {:induction false} LiveIsHeard(hop: Hop, root: Key, s: seq<Entry>, floor: Option<Epoch>, live: Entry)
    requires live in s && RootsVote(hop, root, live) && !live.withdrawn && Above(floor, live.epoch)
    requires forall e <- s :: RootsVote(hop, root, e) && e.withdrawn ==> e.epoch < live.epoch
    ensures RootScan(hop, root, s, floor) == Settled
  {
    hide Counts, RootEntry;
    CountsAbove(hop, floor, s[0]);
    CountsAbove(hop, floor, live);
    if Counts(hop, floor, s[0]) && RootEntry(hop, root, s[0]) {
      if s[0].withdrawn {
        LiveIsHeard(hop, root, s[1..], Some(s[0].epoch), live);
      }
    } else {
      LiveIsHeard(hop, root, s[1..], floor, live);
    }
  }

  /** `top` is the highest undo in `s` and at least `floor`. */
  ghost predicate TopUndo(hop: Hop, root: Key, s: seq<Entry>, floor: Option<Epoch>, top: Option<Epoch>) {
    && (top == floor || exists e :: e in s && RootsVote(hop, root, e) && e.withdrawn && top == Some(e.epoch))
    && (floor.Some? ==> top.Some? && top.value >= floor.value)
    && forall e <- s :: RootsVote(hop, root, e) && e.withdrawn ==> !Above(top, e.epoch)
  }

  /** With no live root vote above the floor, the pass leaves the highest undo. */
  lemma {:induction false} UndoIsTop(hop: Hop, root: Key, s: seq<Entry>, floor: Option<Epoch>)
    requires forall e <- s :: RootsVote(hop, root, e) && !e.withdrawn ==> !Above(floor, e.epoch)
    ensures RootScan(hop, root, s, floor).Undone?
    ensures TopUndo(hop, root, s, floor, RootScan(hop, root, s, floor).floor)
  {
    hide Counts, RootEntry;
    if |s| > 0 {
      CountsAbove(hop, floor, s[0]);
      assert s[0] in s;
      assert forall e :: e in s <==> e == s[0] || e in s[1..];
      if Counts(hop, floor, s[0]) && RootEntry(hop, root, s[0]) {
        UndoIsTop(hop, root, s[1..], Some(s[0].epoch));
      } else {
        UndoIsTop(hop, root, s[1..], floor);
      }
    }
  }

  /** The roots do not contradict each other in a way order could decide: no root's vote is live, or one that is stands
      above every undo. */
  ghost predicate RootsAgree(hop: Hop, root: Key, s: seq<Entry>) {
    || (forall e <- s :: RootsVote(hop, root, e) ==> e.withdrawn)
    || (exists live :: live in s && RootsVote(hop, root, live) && !live.withdrawn &&
          forall e <- s :: RootsVote(hop, root, e) && e.withdrawn ==> e.epoch < live.epoch)
  }

  lemma SameMembers<T>(s: seq<T>, t: seq<T>)
    requires multiset(s) == multiset(t)
    ensures forall e :: e in s <==> e in t
  {
    assert forall e :: e in s <==> e in multiset(s);
    assert forall e :: e in t <==> e in multiset(t);
  }

  lemma RootScanPermuted(hop: Hop, root: Key, s: seq<Entry>, t: seq<Entry>)
    requires multiset(s) == multiset(t) && RootsAgree(hop, root, s)
    ensures RootScan(hop, root, s, None) == RootScan(hop, root, t, None)
  {
    hide RootScan, RootsVote;
    SameMembers(s, t);
    if forall e <- s :: RootsVote(hop, root, e) ==> e.withdrawn {
      UndoIsTop(hop, root, s, None);
      UndoIsTop(hop, root, t, None);
    } else {
      var live :| live in s && RootsVote(hop, root, live) && !live.withdrawn &&
                  forall e <- s :: RootsVote(hop, root, e) && e.withdrawn ==> e.epoch < live.epoch;
      LiveIsHeard(hop, root, s, None, live);
      LiveIsHeard(hop, root, t, None, live);
    }
  }

  lemma LiveFirst(hop: Hop, root: Key, s: seq<Entry>) returns (t: seq<Entry>)
    requires !RootsAgree(hop, root, s)
    ensures multiset(t) == multiset(s) && RootScan(hop, root, t, None).Settled?
  {
    hide Counts, RootEntry;
    var i: nat :| i < |s| && RootsVote(hop, root, s[i]) && !s[i].withdrawn;
    t := [s[i]] + s[..i] + s[i + 1..];
    FrontPermutes(s, i);
  }

  lemma UndoFirst(hop: Hop, root: Key, s: seq<Entry>) returns (u: seq<Entry>)
    requires !RootsAgree(hop, root, s)
    ensures multiset(u) == multiset(s) && RootScan(hop, root, u, None).Undone?
  {
    hide Counts, RootEntry;
    var i: nat :| i < |s| && RootsVote(hop, root, s[i]) && !s[i].withdrawn;
    var j := HighestUndo(hop, root, s, s[i]);
    u := [s[j]] + s[..j] + s[j + 1..];
    FrontPermutes(s, j);
    SameMembers(s, u);
    assert u[1..] == s[..j] + s[j + 1..];
    UndoIsTop(hop, root, u[1..], Some(s[j].epoch));
  }

  /** When they do contradict each other, the order of the entries decides. */
  lemma OrderDecides(hop: Hop, root: Key, s: seq<Entry>) returns (t: seq<Entry>, u: seq<Entry>)
    requires !RootsAgree(hop, root, s)
    ensures multiset(t) == multiset(s) == multiset(u)
    ensures RootScan(hop, root, t, None).Settled? && RootScan(hop, root, u, None).Undone?
  {
    hide RootScan, RootsVote, RootsAgree;
    t := LiveFirst(hop, root, s);
    u := UndoFirst(hop, root, s);
  }

  lemma FrontPermutes(s: seq<Entry>, i: nat)
    requires i < |s|
    ensures multiset([s[i]] + s[..i] + s[i + 1..]) == multiset(s)
  {
    assert s == s[..i] + [s[i]] + s[i + 1..];
  }

  /** An undo at or above every live vote, when no live vote is above every undo. */
  lemma HighestUndo(hop: Hop, root: Key, s: seq<Entry>, live: Entry) returns (j: nat)
    requires live in s && RootsVote(hop, root, live) && !live.withdrawn && !RootsAgree(hop, root, s)
    ensures j < |s| && RootsVote(hop, root, s[j]) && s[j].withdrawn
    ensures forall e <- s :: RootsVote(hop, root, e) && !e.withdrawn ==> e.epoch <= s[j].epoch
  {
    hide RootsVote;
    var e :| e in s && RootsVote(hop, root, e) && e.withdrawn && e.epoch >= live.epoch;
    j :| 0 <= j < |s| && s[j] == e;
    var i := 0;
    while i < |s|
      invariant 0 <= i <= |s| && 0 <= j < |s| && RootsVote(hop, root, s[j]) && s[j].withdrawn
      invariant forall x :: 0 <= x < i && RootsVote(hop, root, s[x]) && s[x].withdrawn ==> s[x].epoch <= s[j].epoch
    {
      if RootsVote(hop, root, s[i]) && s[i].withdrawn && s[i].epoch > s[j].epoch {
        j := i;
      }
      i := i + 1;
    }
    forall f <- s | RootsVote(hop, root, f) && !f.withdrawn
      ensures f.epoch <= s[j].epoch
    {
      var w :| w in s && RootsVote(hop, root, w) && w.withdrawn && w.epoch >= f.epoch;
      var x :| 0 <= x < |s| && s[x] == w;
    }
  }

  // ---- order ---------------------------------------------------------------------------------

  lemma VotesPermuted(hop: Hop, floor: Option<Epoch>, s: seq<Entry>, t: seq<Entry>, q: nat)
    requires multiset(s) == multiset(t)
    ensures VotesVerdict(hop, floor, s, q) == VotesVerdict(hop, floor, t, q)
  {
    hide Counts, Open;
    var x, y := Open(hop, floor, s, q), Open(hop, floor, t, q);
    forall e: Epoch
      ensures Closed(hop, floor, s, e, q) == Closed(hop, floor, t, e, q)
    {
      CountPermuted(s, t, v => Counts(hop, floor, v) && HasLeft(e, v));
    }
    OpenEpochUnique(hop, floor, s, q, x, y);
    CountPermuted(s, t, e => Counts(hop, floor, e) && !e.withdrawn);
    CountPermuted(s, t, e => Counts(hop, floor, e) && e.epoch == x);
    CountPermuted(s, t, e => Counts(hop, floor, e) && e.epoch == x && e.withdrawn);
  }

  /** A hop's verdict is the same for every order of the entries whenever the roots agree. */
  lemma JudgePermuted(hop: Hop, root: Key, s: seq<Entry>, t: seq<Entry>, q: nat)
    requires multiset(s) == multiset(t) && RootsAgree(hop, root, s)
    ensures Judge(hop, root, s, q) == Judge(hop, root, t, q)
  {
    hide RootScan, VotesVerdict, RootsAgree;
    RootScanPermuted(hop, root, s, t);
    var word := RootScan(hop, root, s, None);
    if word.Undone? {
      VotesPermuted(hop, word.floor, s, t, q);
    }
  }

  /** And that is exactly when it is: otherwise two orders of the same entries are judged differently. */
  lemma OrderIndependentIff(hop: Hop, root: Key, s: seq<Entry>, q: nat)
    ensures RootsAgree(hop, root, s) <==>
            forall t, u :: multiset(t) == multiset(s) == multiset(u) ==> Judge(hop, root, t, q) == Judge(hop, root, u, q)
  {
    hide RootScan, VotesVerdict, RootsAgree;
    if RootsAgree(hop, root, s) {
      forall t, u | multiset(t) == multiset(s) == multiset(u)
        ensures Judge(hop, root, t, q) == Judge(hop, root, u, q)
      {
        JudgePermuted(hop, root, s, t, q);
        JudgePermuted(hop, root, s, u, q);
      }
    } else {
      var t, u := OrderDecides(hop, root, s);
      NotByRoot(hop, RootScan(hop, root, u, None).floor, u, q);
      assert Judge(hop, root, t, q) != Judge(hop, root, u, q);
    }
  }

  lemma NotByRoot(hop: Hop, floor: Option<Epoch>, s: seq<Entry>, q: nat)
    ensures VotesVerdict(hop, floor, s, q) != ByRoot
  {
  }

  /** The store's invariant: one entry per issuer, capability and grantee. */
  ghost predicate OnePerTriple(s: seq<Entry>) {
    forall i, j :: 0 <= i < j < |s| ==> !(s[i].issuer == s[j].issuer && s[i].cap == s[j].cap && s[i].grantee == s[j].grantee)
  }

  /** Under one pinned root the roots always agree: it has at most one entry for a hop. */
  lemma PinnedAgrees(hop: Hop, root: Key, s: seq<Entry>)
    requires hop.roots.Pinned? && OnePerTriple(s)
    ensures RootsAgree(hop, root, s)
  {
    if exists live :: live in s && RootsVote(hop, root, live) && !live.withdrawn {
      var live :| live in s && RootsVote(hop, root, live) && !live.withdrawn;
      var i :| 0 <= i < |s| && s[i] == live;
      assert forall j :: 0 <= j < |s| && RootsVote(hop, root, s[j]) ==> j == i;
    }
  }

  lemma PinnedJudgePermuted(hop: Hop, root: Key, s: seq<Entry>, t: seq<Entry>, q: nat)
    requires hop.roots.Pinned? && OnePerTriple(s) && multiset(s) == multiset(t)
    ensures Judge(hop, root, s, q) == Judge(hop, root, t, q)
  {
    PinnedAgrees(hop, root, s);
    JudgePermuted(hop, root, s, t, q);
  }

  // ---- a quorum of one -------------------------------------------------------------------------

  /** At quorum 1 the epochs fall away: revoked exactly when the root's vote settles it or some vote above the root's
      undo is live. */
  lemma QuorumOne(hop: Hop, root: Key, s: seq<Entry>)
    ensures Judge(hop, root, s, 1) != Free <==>
            match RootScan(hop, root, s, None)
            case Settled => true
            case Undone(floor) => exists e :: e in s && Counts(hop, floor, e) && !e.withdrawn
  {
    hide Counts, RootScan, Open;
    var word := RootScan(hop, root, s, None);
    if word.Undone? {
      var floor := word.floor;
      var p := (e: Entry) => Counts(hop, floor, e) && !e.withdrawn;
      CountSome(s, p);
      if Count(s, p) == 0 {
        var x := Open(hop, floor, s, 1);
        CountSame(s, e => Counts(hop, floor, e) && e.epoch == x, e => Counts(hop, floor, e) && e.epoch == x && e.withdrawn);
      }
    }
  }

  /** Under one pinned root, said without the pass: revoked exactly when the root's vote is live, or some live counted vote
      is above the root's undo. */
  lemma QuorumOnePinned(hop: Hop, root: Key, s: seq<Entry>)
    requires hop.roots.Pinned? && OnePerTriple(s)
    ensures Judge(hop, root, s, 1) != Free <==>
            || (exists e :: e in s && RootsVote(hop, root, e) && !e.withdrawn)
            || (exists e :: e in s && Counts(hop, None, e) && !e.withdrawn && AboveUndo(hop, root, s, e))
  {
    hide Counts, RootEntry, RootScan, Judge;
    QuorumOne(hop, root, s);
    PinnedAgrees(hop, root, s);
    if forall e <- s :: RootsVote(hop, root, e) ==> e.withdrawn {
      UndoIsTop(hop, root, s, None);
      var floor := RootScan(hop, root, s, None).floor;
      forall e | e in s
        ensures Counts(hop, floor, e) <==> Counts(hop, None, e) && AboveUndo(hop, root, s, e)
      {
        CountsAbove(hop, floor, e);
      }
    } else {
      var live :| live in s && RootsVote(hop, root, live) && !live.withdrawn &&
                  forall e <- s :: RootsVote(hop, root, e) && e.withdrawn ==> e.epoch < live.epoch;
      LiveIsHeard(hop, root, s, None, live);
    }
  }

  ghost predicate AboveUndo(hop: Hop, root: Key, s: seq<Entry>, e: Entry) {
    forall u <- s :: RootsVote(hop, root, u) && u.withdrawn ==> e.epoch > u.epoch
  }

  // ---- the latch ---------------------------------------------------------------------------------

  predicate AboutHop(hop: Hop, e: Entry) {
    e.cap == hop.cap && e.grantee == hop.grantee
  }

  /** An entry changed: about other hops all along, or a vote of `epoch`, not the root's, withdrawn. */
  predicate Changed(hop: Hop, root: Key, epoch: Epoch, e: Entry, f: Entry) {
    || f == e
    || (!AboutHop(hop, e) && !AboutHop(hop, f))
    || (e.epoch == epoch && e.issuer != root && f == e.(withdrawn := true, held := f.held))
  }

  /** An entry added: about another hop, or withdrawn in `epoch` and not the root's. */
  predicate Added(hop: Hop, root: Key, epoch: Epoch, f: Entry) {
    !AboutHop(hop, f) || (f.withdrawn && f.epoch == epoch && f.issuer != root)
  }

  /** `t` is `s` after anything said about other hops, and about this one withdrawals in `epoch`, none of them the root's, of
      votes held or not. */
  ghost predicate Withdraws(hop: Hop, root: Key, epoch: Epoch, s: seq<Entry>, t: seq<Entry>) {
    && |s| <= |t|
    && (forall i :: 0 <= i < |s| ==> Changed(hop, root, epoch, s[i], t[i]))
    && (forall i :: |s| <= i < |t| ==> Added(hop, root, epoch, t[i]))
  }

  lemma WithdrawsOn(hop: Hop, root: Key, epoch: Epoch, s: seq<Entry>, t: seq<Entry>, u: seq<Entry>)
    requires Withdraws(hop, root, epoch, s, t) && Withdraws(hop, root, epoch, t, u)
    ensures Withdraws(hop, root, epoch, s, u)
  {
    forall i | 0 <= i < |s|
      ensures Changed(hop, root, epoch, s[i], u[i])
    {
      assert Changed(hop, root, epoch, s[i], t[i]) && Changed(hop, root, epoch, t[i], u[i]);
    }
    forall i | |s| <= i < |u|
      ensures Added(hop, root, epoch, u[i])
    {
      if i < |t| {
        assert Added(hop, root, epoch, t[i]) && Changed(hop, root, epoch, t[i], u[i]);
      }
    }
  }

  /** Any run of such steps is one. */
  lemma {:induction false} WithdrawalRun(hop: Hop, root: Key, epoch: Epoch, run: seq<seq<Entry>>)
    requires |run| > 0 && forall i :: 0 <= i < |run| - 1 ==> Withdraws(hop, root, epoch, run[i], run[i + 1])
    ensures Withdraws(hop, root, epoch, run[0], run[|run| - 1])
  {
    hide Withdraws;
    if |run| == 1 {
      WithdrawsNothing(hop, root, epoch, run[0]);
    } else {
      var n := |run| - 1;
      WithdrawalRun(hop, root, epoch, run[..n]);
      assert Withdraws(hop, root, epoch, run[n - 1], run[n - 1 + 1]);
      WithdrawsOn(hop, root, epoch, run[0], run[n - 1], run[n]);
    }
  }

  lemma WithdrawsNothing(hop: Hop, root: Key, epoch: Epoch, s: seq<Entry>)
    ensures Withdraws(hop, root, epoch, s, s)
  {
  }

  /** The root has said nothing more. */
  lemma {:induction false} AddedScan(hop: Hop, root: Key, epoch: Epoch, t: seq<Entry>, floor: Option<Epoch>)
    requires hop.roots.Pinned? && forall i :: 0 <= i < |t| ==> Added(hop, root, epoch, t[i])
    ensures RootScan(hop, root, t, floor) == Undone(floor)
  {
    if |t| > 0 {
      assert Added(hop, root, epoch, t[0]);
      AddedScan(hop, root, epoch, t[1..], floor);
    }
  }

  lemma {:induction false} WithdrawsScan(hop: Hop, root: Key, epoch: Epoch, s: seq<Entry>, t: seq<Entry>, floor: Option<Epoch>)
    requires hop.roots.Pinned? && Withdraws(hop, root, epoch, s, t)
    ensures RootScan(hop, root, s, floor) == RootScan(hop, root, t, floor)
  {
    if |s| == 0 {
      AddedScan(hop, root, epoch, t, floor);
    } else {
      assert Changed(hop, root, epoch, s[0], t[0]);
      WithdrawsScan(hop, root, epoch, s[1..], t[1..], floor);
      WithdrawsScan(hop, root, epoch, s[1..], t[1..], Some(s[0].epoch));
    }
  }

  /** Counting through a change that keeps, or only adds, what is counted. */
  lemma {:induction false} CountAcross(s: seq<Entry>, t: seq<Entry>, p: Entry -> bool)
    requires |s| == |t| && forall i :: 0 <= i < |s| ==> (p(s[i]) ==> p(t[i]))
    ensures Count(s, p) <= Count(t, p)
    ensures (forall i :: 0 <= i < |s| ==> (p(t[i]) ==> p(s[i]))) ==> Count(s, p) == Count(t, p)
  {
    var n := |s| - 1;
    if n >= 0 {
      CountAcross(s[..n], t[..n], p);
    }
  }

  lemma {:induction false} CountGrows(s: seq<Entry>, t: seq<Entry>, p: Entry -> bool)
    requires |s| <= |t| && forall i :: 0 <= i < |s| ==> (p(s[i]) ==> p(t[i]))
    ensures Count(s, p) <= Count(t, p)
    decreases |t|
  {
    if |s| < |t| {
      CountGrows(s, t[..|t| - 1], p);
    } else {
      CountAcross(s, t, p);
    }
  }

  lemma ChangedCounts(hop: Hop, root: Key, epoch: Epoch, floor: Option<Epoch>, e: Entry, f: Entry)
    requires hop.roots.Pinned? && Changed(hop, root, epoch, e, f)
    ensures Counts(hop, floor, e) == Counts(hop, floor, f)
    ensures Counts(hop, floor, e) ==> f.epoch == e.epoch && (e.withdrawn ==> f.withdrawn)
  {
  }

  /** The latch: a hop with at least `q` counted votes in its open epoch stays revoked, under one pinned root, through anything
      said about other hops and any run of withdrawals in that epoch, until `q` counted issuers have left it. */
  lemma LatchHolds(hop: Hop, root: Key, q: nat, s: seq<Entry>, t: seq<Entry>, floor: Option<Epoch>, epoch: Epoch)
    requires hop.roots.Pinned? && RootScan(hop, root, s, None) == Undone(floor)
    requires epoch == Open(hop, floor, s, q) && CastIn(hop, floor, s, epoch) >= q
    requires Withdraws(hop, root, epoch, s, t) && Left(hop, floor, t, epoch) < q
    ensures Judge(hop, root, t, q) == ByVotes || Judge(hop, root, t, q) == Latched(epoch)
  {
    hide Counts, RootScan, Open, Changed, Added;
    CountSome(s, e => Counts(hop, floor, e) && e.epoch == epoch);
    var vote :| vote in s && Counts(hop, floor, vote) && vote.epoch == epoch;
    CountsAbove(hop, floor, vote);
    WithdrawsScan(hop, root, epoch, s, t, None);
    forall i | 0 <= i < |s|
      ensures Counts(hop, floor, s[i]) == Counts(hop, floor, t[i])
      ensures Counts(hop, floor, s[i]) ==> t[i].epoch == s[i].epoch && (s[i].withdrawn ==> t[i].withdrawn)
    {
      ChangedCounts(hop, root, epoch, floor, s[i], t[i]);
    }
    CountGrows(s, t, e => Counts(hop, floor, e) && e.epoch == epoch);
    CountMonotone(t, e => Counts(hop, floor, e) && e.epoch == epoch && e.withdrawn,
                  e => Counts(hop, floor, e) && HasLeft(epoch, e));
    forall y: Epoch | First(floor) <= y < epoch
      ensures Closed(hop, floor, t, y, q)
    {
      assert Closed(hop, floor, s, y, q);
      CountGrows(s, t, e => Counts(hop, floor, e) && HasLeft(y, e));
    }
    assert IsOpenEpoch(hop, floor, t, q, epoch);
    OpenEpochUnique(hop, floor, t, q, epoch, Open(hop, floor, t, q));
  }
}
