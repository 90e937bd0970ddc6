/** Whether an act done before a revocation still stands, chain/revocation.c. */
module Acts {
  import opened Collections
  import opened Votes
  import opened Verdicts
  import opened Admins
  import opened Admission
  import opened Convergence
  import opened Ballots

  /** Whether an act of a key came no later than the line a vote drew. */
  type Journal = (Key, Id, Id) -> bool

  /** The highest undo of a root's that counts, every entry read. */
  function FullUndo(hop: Hop, root: Key, entries: seq<Entry>, floor: Option<Epoch>): (top: Option<Epoch>) {
    if |entries| == 0 then floor
    else if entries[0].withdrawn && Counts(hop, floor, entries[0]) && RootEntry(hop, root, entries[0]) then
      FullUndo(hop, root, entries[1..], Some(entries[0].epoch))
    else FullUndo(hop, root, entries[1..], floor)
  }

  lemma {:induction false} FullUndoIsTop(hop: Hop, root: Key, s: seq<Entry>, floor: Option<Epoch>)
    ensures TopUndo(hop, root, s, floor, FullUndo(hop, root, s, floor))
  {
    hide Counts, RootEntry;
    if |s| > 0 {
      CountsAbove(hop, floor, s[0]);
      assert forall e :: e in s <==> e == s[0] || e in s[1..];
      if s[0].withdrawn && Counts(hop, floor, s[0]) && RootEntry(hop, root, s[0]) {
        FullUndoIsTop(hop, root, s[1..], Some(s[0].epoch));
      } else {
        FullUndoIsTop(hop, root, s[1..], floor);
      }
    }
  }

  lemma TopUndoUnique(hop: Hop, root: Key, s: seq<Entry>, t: seq<Entry>, a: Option<Epoch>, b: Option<Epoch>)
    requires forall e :: e in s <==> e in t
    requires TopUndo(hop, root, s, None, a) && TopUndo(hop, root, t, None, b)
    ensures a == b
  {
    hide RootsVote;
  }

  /** A vote that keeps the hop revoked: live, or of the latched epoch. */
  predicate Binds(hop: Hop, floor: Option<Epoch>, verdict: Verdict, e: Entry) {
    Counts(hop, floor, e) && (e.withdrawn ==> verdict.Latched? && e.epoch == verdict.epoch)
  }

  predicate Behind(journal: Journal, grantee: Key, act: Id, e: Entry) {
    e.cut != 0 && journal(grantee, e.cut, act)
  }

  /** The act stands: the hop is free, or some vote binds and the act is behind the line of every one that does. */
  ghost predicate Stands(hop: Hop, root: Key, entries: seq<Entry>, q: nat, journal: Option<Journal>, act: Id) {
    var verdict := Judge(hop, root, entries, q);
    var floor := FullUndo(hop, root, entries, None);
    || verdict == Free
    || (&& journal.Some? && (exists e :: e in entries && Binds(hop, floor, verdict, e))
        && forall e :: e in entries && Binds(hop, floor, verdict, e) ==> Behind(journal.value, hop.grantee, act, e))
  }

  method ActStands(store: Store, grantors: seq<Key>, grantees: seq<Key>, i: nat, cap: Cap, act: Id, journal: Option<Journal>)
    returns (yes: bool)
    requires OneRowPerKey(store.admins) && |grantors| == |grantees|
    ensures |grantors| > MAX_HOPS || i >= |grantors| ==> !yes
    ensures i < |grantors| <= MAX_HOPS ==>
              yes == Stands(HopOf(store, grantors, grantees[i], i, cap, Standing(store)), grantors[0], store.entries,
                            Quorum(store), journal, act)
  {
    hide Judge, Flagged, Standing;
    if |grantors| > MAX_HOPS || i >= |grantors| {
      return false;
    }
    var flags := StandingAdmins(store);
    var hop := HopOf(store, grantors, grantees[i], i, cap, FlagSet(store.admins, flags));
    var verdict := JudgeHop(hop, grantors[0], store.entries, Quorum(store));
    if verdict == Free {
      return true;
    }
    var floor := Undo(hop, grantors[0], store.entries);
    if journal.None? {
      return false;
    }
    yes := AllBehind(hop, floor, verdict, store.entries, journal.value, act);
  }

  method Undo(hop: Hop, root: Key, entries: seq<Entry>) returns (floor: Option<Epoch>)
    ensures floor == FullUndo(hop, root, entries, None)
  {
    hide Counts, RootEntry;
    floor := None;
    assert entries[0..] == entries;
    for e := 0 to |entries|
      invariant FullUndo(hop, root, entries, None) == FullUndo(hop, root, entries[e..], floor)
    {
      assert entries[e..][1..] == entries[e + 1..];
      if entries[e].withdrawn && Counts(hop, floor, entries[e]) && RootEntry(hop, root, entries[e]) {
        floor := Some(entries[e].epoch);
      }
    }
  }

  method AllBehind(hop: Hop, floor: Option<Epoch>, verdict: Verdict, entries: seq<Entry>, journal: Journal, act: Id)
    returns (yes: bool)
    ensures yes <==> (exists e :: e in entries && Binds(hop, floor, verdict, e)) &&
                     forall e :: e in entries && Binds(hop, floor, verdict, e) ==> Behind(journal, hop.grantee, act, e)
  {
    hide Counts;
    var binding := 0;
    for e := 0 to |entries|
      invariant binding > 0 <==> exists i :: 0 <= i < e && Binds(hop, floor, verdict, entries[i])
      invariant forall i :: 0 <= i < e && Binds(hop, floor, verdict, entries[i]) ==> Behind(journal, hop.grantee, act, entries[i])
    {
      var entry := entries[e];
      if !Counts(hop, floor, entry) {
        continue;
      }
      if entry.withdrawn && !(verdict.Latched? && entry.epoch == verdict.epoch) {
        continue;
      }
      binding := binding + 1;
      assert Binds(hop, floor, verdict, entries[e]);
      if !Behind(journal, hop.grantee, act, entry) {
        assert entry in entries;
        return false;
      }
    }
    yes := binding > 0;
  }

  /** A hop is only ever kept revoked by votes that bind, when its roots agree -- as one pinned root always does. So the act
      stands exactly when the hop is free or every binding vote drew a line that the act is behind. */
  lemma StandsIff(hop: Hop, root: Key, entries: seq<Entry>, q: nat, journal: Option<Journal>, act: Id)
    requires q > 0 && RootsAgree(hop, root, entries)
    ensures var verdict, floor := Judge(hop, root, entries, q), FullUndo(hop, root, entries, None);
            Stands(hop, root, entries, q, journal, act) <==>
              || verdict == Free
              || (journal.Some? &&
                  forall e :: e in entries && Binds(hop, floor, verdict, e) ==> Behind(journal.value, hop.grantee, act, e))
  {
    hide Behind, Binds, FullUndo, Judge;
    if Judge(hop, root, entries, q) != Free {
      SomeVoteBinds(hop, root, entries, q);
    }
  }

  lemma SomeVoteBinds(hop: Hop, root: Key, entries: seq<Entry>, q: nat)
    requires q > 0 && RootsAgree(hop, root, entries) && Judge(hop, root, entries, q) != Free
    ensures exists e :: e in entries && Binds(hop, FullUndo(hop, root, entries, None), Judge(hop, root, entries, q), e)
  {
    hide Counts, RootEntry, FullUndo, RootScan, Open;
    var verdict, top := Judge(hop, root, entries, q), FullUndo(hop, root, entries, None);
    FullUndoIsTop(hop, root, entries, None);
    if forall e <- entries :: RootsVote(hop, root, e) ==> e.withdrawn {
      UndoIsTop(hop, root, entries, None);
      TopUndoUnique(hop, root, entries, entries, top, RootScan(hop, root, entries, None).floor);
      VotesBind(hop, top, entries, q, verdict);
    } else {
      var live :| live in entries && RootsVote(hop, root, live) && !live.withdrawn &&
                  forall e <- entries :: RootsVote(hop, root, e) && e.withdrawn ==> e.epoch < live.epoch;
      CountsAbove(hop, top, live);
      assert Binds(hop, top, verdict, live);
    }
  }

  lemma VotesBind(hop: Hop, floor: Option<Epoch>, entries: seq<Entry>, q: nat, verdict: Verdict)
    requires q > 0 && verdict == VotesVerdict(hop, floor, entries, q) != Free
    ensures exists e :: e in entries && Binds(hop, floor, verdict, e)
  {
    hide Counts, Open;
    var x := Open(hop, floor, entries, q);
    CountSome(entries, e => Counts(hop, floor, e) && !e.withdrawn);
    CountSome(entries, e => Counts(hop, floor, e) && e.epoch == x);
    if verdict == ByVotes {
      var e :| e in entries && Counts(hop, floor, e) && !e.withdrawn;
      assert Binds(hop, floor, verdict, e);
    } else {
      var e :| e in entries && Counts(hop, floor, e) && e.epoch == x;
      assert Binds(hop, floor, verdict, e);
    }
  }

  /** Whether an act stands does not depend on the order of the entries, either. */
  lemma StandsPermuted(hop: Hop, root: Key, s: seq<Entry>, t: seq<Entry>, q: nat, journal: Option<Journal>, act: Id)
    requires multiset(s) == multiset(t) && RootsAgree(hop, root, s)
    ensures Stands(hop, root, s, q, journal, act) == Stands(hop, root, t, q, journal, act)
  {
    hide Judge, FullUndo, Binds, Behind, RootsAgree, TopUndo;
    JudgePermuted(hop, root, s, t, q);
    SameMembers(s, t);
    FullUndoIsTop(hop, root, s, None);
    FullUndoIsTop(hop, root, t, None);
    TopUndoUnique(hop, root, s, t, FullUndo(hop, root, s, None), FullUndo(hop, root, t, None));
  }

  /** What stops an act, over the fields of a vote: the hop is revoked, and a vote in play that is live, or of the latched epoch,
      drew no line, or one the log does not put the act behind. */
  lemma VoteStopsAct(hop: Hop, root: Key, s: seq<Entry>, q: nat, journal: Option<Journal>, act: Id, e: Entry)
    requires Judge(hop, root, s, q) != Free && e in InPlay(hop, root, s)
    requires !e.withdrawn || Judge(hop, root, s, q) == Latched(e.epoch)
    requires journal == None || e.cut == 0 || !journal.value(hop.grantee, e.cut, act)
    ensures !Stands(hop, root, s, q, journal, act)
  {
    hide Counts, MayVote, Judge, FullUndo;
    InPlayCounts(hop, root, s, e);
    assert Binds(hop, FullUndo(hop, root, s, None), Judge(hop, root, s, q), e);
  }

  /** And what lets it stand: the log puts it behind the line of every such vote. */
  lemma ActStandsWhen(hop: Hop, root: Key, s: seq<Entry>, q: nat, journal: Journal, act: Id)
    requires q > 0 && RootsAgree(hop, root, s)
    requires forall e :: e in InPlay(hop, root, s) && (!e.withdrawn || Judge(hop, root, s, q) == Latched(e.epoch)) ==>
               e.cut != 0 && journal(hop.grantee, e.cut, act)
    ensures Stands(hop, root, s, q, Some(journal), act)
  {
    hide Counts, MayVote, Judge, FullUndo, RootsAgree;
    StandsIff(hop, root, s, q, Some(journal), act);
    forall e | e in s && Binds(hop, FullUndo(hop, root, s, None), Judge(hop, root, s, q), e)
      ensures Behind(journal, hop.grantee, act, e)
    {
      InPlayCounts(hop, root, s, e);
    }
  }

  lemma InPlayCounts(hop: Hop, root: Key, s: seq<Entry>, e: Entry)
    requires e in s
    ensures Counts(hop, FullUndo(hop, root, s, None), e) <==> e in InPlay(hop, root, s)
  {
    hide Counts, MayVote, RootEntry, OfRoot, FullUndo;
    var top := FullUndo(hop, root, s, None);
    FullUndoIsTop(hop, root, s, None);
    CountsAbove(hop, top, e);
    CountsMeans(hop, e);
    forall u: Entry
      ensures RootsVote(hop, root, u) <==> MayVote(hop, u) && OfRoot(hop, root, u)
    {
      RootsVoteMeans(hop, root, u);
    }
  }

  // ---- the line a tombstone loses ------------------------------------------------------------------------

  /** Voter 1 revokes with a line at `cut` and withdraws; voter 2's vote keeps the hop latched. Delivered the other way round
      the withdrawal leaves a tombstone without the line. */
  function Voted(epoch: Epoch, cut: Id): (r: Record) { Record(false, 1, 0, 7, epoch, 0, cut, 3) }
  function Undid(epoch: Epoch): (r: Record) { Record(true, 1, 0, 7, epoch, 3, 0, 4) }
  function Other(epoch: Epoch): (r: Record) { Record(false, 2, 0, 7, epoch, 0, 8, 5) }

  lemma DeliverThree(capacity: nat, a: Record, b: Record, c: Record)
    ensures Deliver([], capacity, [a, b, c]) ==
            Admit(Admit(Admit([], capacity, a).entries, capacity, b).entries, capacity, c).entries
  {
    hide Admit;
    var run := [a, b, c];
    assert run[..2] == [a, b] && run[..2][..1] == [a] && run[..1][..0] == [];
    assert Deliver([], capacity, [a]) == Admit([], capacity, a).entries;
    assert Deliver([], capacity, [a, b]) == Admit(Deliver([], capacity, [a]), capacity, b).entries by { assert [a, b][..1] == [a]; }
  }

  lemma EitherOrder(epoch: Epoch, cut: Id)
    ensures Deliver([], 2, [Voted(epoch, cut), Undid(epoch), Other(epoch)]) == TwoVotes(1, epoch, epoch, 5, (cut, 8))
    ensures Deliver([], 2, [Undid(epoch), Voted(epoch, cut), Other(epoch)]) == TwoVotes(1, epoch, epoch, 5, (0, 8))
  {
    DeliverThree(2, Voted(epoch, cut), Undid(epoch), Other(epoch));
    DeliverThree(2, Undid(epoch), Voted(epoch, cut), Other(epoch));
  }

  /** With a log in which everything is behind every line, the act stands exactly when the withdrawn vote kept its line. */
  lemma LatchedActStands(epoch: Epoch, cut: Id, act: Id)
    ensures Stands(TWO_VOTERS, 9, TwoVotes(1, epoch, epoch, 5, (cut, 8)), 2, Some((_, _, _) => true), act) <==> cut != 0
  {
    var s := TwoVotes(1, epoch, epoch, 5, (cut, 8));
    LatchVerdict(epoch, epoch, 5, (cut, 8));
    var floor := FullUndo(TWO_VOTERS, 9, s, None);
    assert floor == None by {
      assert s[1..] == [s[1]] && [s[1]][1..] == [];
      assert FullUndo(TWO_VOTERS, 9, [s[1]], None) == None;
    }
    hide Judge, FullUndo;
    assert s[0] in s && Binds(TWO_VOTERS, None, Latched(epoch), s[0]);
    assert forall e :: e in s <==> e == s[0] || e == s[1];
  }

  /** So the lost line shows: the two orders of a revocation and its withdrawal answer alike about an act exactly when the
      revocation drew no line. */
  lemma LostLineShows(epoch: Epoch, cut: Id, act: Id)
    ensures var journal: Option<Journal> := Some((_, _, _) => true);
            var s, t := Deliver([], 2, [Voted(epoch, cut), Undid(epoch), Other(epoch)]),
                        Deliver([], 2, [Undid(epoch), Voted(epoch, cut), Other(epoch)]);
            Stands(TWO_VOTERS, 9, s, 2, journal, act) == Stands(TWO_VOTERS, 9, t, 2, journal, act) <==> cut == 0
  {
    hide Stands, Deliver;
    EitherOrder(epoch, cut);
    LatchedActStands(epoch, cut, act);
    LatchedActStands(epoch, 0, act);
  }
}
