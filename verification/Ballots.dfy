/** Whose votes decide a hop, and how, said over the fields of the entries: what chain/revocation.c counts as an entitled vote. */
module Ballots {
  import opened Collections
  import opened Votes
  import opened Verdicts
  import opened Admins

  // ---- who has a say ------------------------------------------------------------------------------

  /** The issuer is an admin who stands. */
  predicate StandingAdmin(hop: Hop, e: Entry) {
    hop.hasAdmin && e.issuer in hop.admins && (hop.standing == None || e.issuer in hop.standing.value)
  }

  /** The issuer is an admin who does not stand. */
  predicate FallenAdmin(hop: Hop, e: Entry) {
    hop.hasAdmin && e.issuer in hop.admins && hop.standing != None && e.issuer !in hop.standing.value
  }

  /** An entry with a say over the hop: about its capability and grantee, and issued by a grantor above it or an admin who
      stands -- with a root set by a member exactly when its act counts; where every issuer is heard, by anyone but an admin who
      does not stand. */
  predicate MayVote(hop: Hop, e: Entry) {
    && e.cap == hop.cap && e.grantee == hop.grantee
    && match hop.roots
       case Pinned => if hop.anyIssuer then !FallenAdmin(hop, e) else e.issuer in hop.entitled || StandingAdmin(hop, e)
       case RootSet(member, counts) =>
         if hop.anyIssuer then member(e.issuer) || !FallenAdmin(hop, e)
         else if member(e.issuer) then counts(e.issuer, e.held)
         else e.issuer in hop.entitled || StandingAdmin(hop, e)
  }

  /** An entry of a root's: of the pinned one, or of a member whose act counts. */
  predicate OfRoot(hop: Hop, root: Key, e: Entry) {
    match hop.roots
    case Pinned => e.issuer == root
    case RootSet(member, counts) => member(e.issuer) && counts(e.issuer, e.held)
  }

  lemma CountsMeans(hop: Hop, e: Entry)
    ensures Counts(hop, None, e) <==> MayVote(hop, e)
  {
  }

  lemma RootsVoteMeans(hop: Hop, root: Key, e: Entry)
    ensures RootsVote(hop, root, e) <==> MayVote(hop, e) && OfRoot(hop, root, e)
  {
  }

  // ---- nobody else is heard ---------------------------------------------------------------------------

  function Kept(s: seq<Entry>, p: Entry -> bool): (t: seq<Entry>) {
    if |s| == 0 then [] else (if p(s[0]) then [s[0]] else []) + Kept(s[1..], p)
  }

  lemma {:induction false} KeptScan(hop: Hop, root: Key, s: seq<Entry>, floor: Option<Epoch>)
    ensures RootScan(hop, root, Kept(s, e => MayVote(hop, e)), floor) == RootScan(hop, root, s, floor)
  {
    hide Counts, MayVote, RootEntry;
    if |s| > 0 {
      var p := (e: Entry) => MayVote(hop, e);
      CountsAbove(hop, floor, s[0]);
      CountsMeans(hop, s[0]);
      KeptScan(hop, root, s[1..], floor);
      KeptScan(hop, root, s[1..], Some(s[0].epoch));
      var rest := Kept(s[1..], p);
      assert p(s[0]) ==> Kept(s, p) == [s[0]] + rest && ([s[0]] + rest)[1..] == rest;
      assert !p(s[0]) ==> Kept(s, p) == rest;
    }
  }

  lemma {:induction false} KeptCount(s: seq<Entry>, p: Entry -> bool, k: Entry -> bool)
    requires forall e: Entry :: p(e) ==> k(e)
    ensures Count(Kept(s, k), p) == Count(s, p)
  {
    if |s| > 0 {
      KeptCount(s[1..], p, k);
      var head := if k(s[0]) then [s[0]] else [];
      CountConcat(head, Kept(s[1..], k), p);
      CountConcat([s[0]], s[1..], p);
      assert s == [s[0]] + s[1..];
      CountHead(s[0], p);
      CountNone(p);
    }
  }

  lemma CountHead(e: Entry, p: Entry -> bool)
    ensures Count([e], p) == if p(e) then 1 else 0
  {
    assert [e][..0] == [];
  }

  lemma CountNone(p: Entry -> bool)
    ensures Count([], p) == 0
  {
  }

  /** Dropping every entry without a say leaves the verdict as it was: under one pinned root, every one whose issuer is neither a
      grantor above the hop nor an admin who stands. */
  lemma JudgeIgnores(hop: Hop, root: Key, s: seq<Entry>, q: nat)
    ensures Judge(hop, root, Kept(s, e => MayVote(hop, e)), q) == Judge(hop, root, s, q)
  {
    hide Counts, MayVote, RootScan, Open, Kept;
    var k := (e: Entry) => MayVote(hop, e);
    KeptScan(hop, root, s, None);
    var t := Kept(s, k);
    var word := RootScan(hop, root, s, None);
    if word.Undone? {
      var floor := word.floor;
      forall e: Entry
        ensures Counts(hop, floor, e) ==> k(e)
      {
        CountsAbove(hop, floor, e);
        CountsMeans(hop, e);
      }
      var x, y := Open(hop, floor, s, q), Open(hop, floor, t, q);
      forall z: Epoch
        ensures Closed(hop, floor, s, z, q) == Closed(hop, floor, t, z, q)
      {
        KeptCount(s, e => Counts(hop, floor, e) && HasLeft(z, e), k);
      }
      OpenEpochUnique(hop, floor, s, q, x, y);
      KeptCount(s, e => Counts(hop, floor, e) && !e.withdrawn, k);
      KeptCount(s, e => Counts(hop, floor, e) && e.epoch == x, k);
      KeptCount(s, e => Counts(hop, floor, e) && e.epoch == x && e.withdrawn, k);
    }
  }

  // ---- the verdict, in sets of votes ------------------------------------------------------------------------

  /** A root's vote is live. */
  ghost predicate RootRevokes(hop: Hop, root: Key, s: seq<Entry>) {
    exists e :: e in s && MayVote(hop, e) && OfRoot(hop, root, e) && !e.withdrawn
  }

  /** The epoch is past every undo of a root's. */
  ghost predicate PastUndo(hop: Hop, root: Key, s: seq<Entry>, x: nat) {
    forall u :: u in s && MayVote(hop, u) && OfRoot(hop, root, u) && u.withdrawn ==> x > u.epoch
  }

  /** The votes in play: those with a say, past every undo of a root's. */
  ghost function InPlay(hop: Hop, root: Key, s: seq<Entry>): (b: set<Entry>) {
    set e | e in s && MayVote(hop, e) && PastUndo(hop, root, s, e.epoch)
  }

  /** Those that have left an epoch: withdrawn in it, or cast later. */
  ghost function HaveLeft(b: set<Entry>, x: nat): (l: set<Entry>) {
    set e | e in b && (e.epoch > x || (e.epoch == x && e.withdrawn))
  }

  /** The latch at `x`: the first epoch past the undo that fewer than `q` have left, in which `q` voted and fewer than `q` of
      them withdrew. */
  ghost predicate LatchedAt(hop: Hop, root: Key, s: seq<Entry>, q: nat, x: Epoch) {
    var b := InPlay(hop, root, s);
    && |set e | e in b && e.epoch == x| >= q && |set e | e in b && e.epoch == x && e.withdrawn| < q
    && |HaveLeft(b, x)| < q && forall y: Epoch :: y < x && PastUndo(hop, root, s, y) ==> |HaveLeft(b, y)| >= q
  }

  lemma {:induction false} CountSet(s: seq<Entry>, p: Entry -> bool)
    requires OnePerTriple(s)
    ensures Count(s, p) == |set e | e in s && p(e)|
  {
    if |s| > 0 {
      var n := |s| - 1;
      CountSet(s[..n], p);
      CountStep(s, p);
    }
  }

  lemma CountStep(s: seq<Entry>, p: Entry -> bool)
    requires |s| > 0 && OnePerTriple(s)
    ensures var n := |s| - 1;
            |set e | e in s && p(e)| == |set e | e in s[..n] && p(e)| + if p(s[n]) then 1 else 0
  {
    var n := |s| - 1;
    var a, b := set e | e in s[..n] && p(e), set e | e in s && p(e);
    assert s == s[..n] + [s[n]];
    assert s[n] !in s[..n];
    assert b == if p(s[n]) then a + {s[n]} else a;
  }

  /** Where the root's pass leaves the floor, when no root's vote is live. */
  lemma FloorMeans(hop: Hop, root: Key, s: seq<Entry>) returns (floor: Option<Epoch>)
    requires !RootRevokes(hop, root, s)
    ensures RootScan(hop, root, s, None) == Undone(floor)
    ensures forall x: nat :: First(floor) <= x <==> PastUndo(hop, root, s, x)
    ensures forall e :: e in InPlay(hop, root, s) <==> e in s && Counts(hop, floor, e)
  {
    hide Counts, RootEntry, MayVote, OfRoot, RootScan;
    forall e: Entry
      ensures RootsVote(hop, root, e) <==> MayVote(hop, e) && OfRoot(hop, root, e)
    {
      RootsVoteMeans(hop, root, e);
    }
    UndoIsTop(hop, root, s, None);
    floor := RootScan(hop, root, s, None).floor;
    forall e | e in s
      ensures Counts(hop, floor, e) <==> e in InPlay(hop, root, s)
    {
      CountsAbove(hop, floor, e);
      CountsMeans(hop, e);
    }
  }

  lemma CountIs(s: seq<Entry>, p: Entry -> bool, b: set<Entry>)
    requires OnePerTriple(s) && forall e :: e in b <==> e in s && p(e)
    ensures Count(s, p) == |b|
  {
    CountSet(s, p);
    assert (set e | e in s && p(e)) == b;
  }

  /** The verdict on a hop, entirely over the entries' fields: a root's live vote revokes; otherwise `q` live votes in play do;
      otherwise the latch, at the one epoch it can hold. */
  lemma JudgeMeans(hop: Hop, root: Key, s: seq<Entry>, q: nat)
    requires q > 0 && OnePerTriple(s) && RootsAgree(hop, root, s)
    ensures RootRevokes(hop, root, s) ==> Judge(hop, root, s, q) == ByRoot
    ensures !RootRevokes(hop, root, s) && |set e | e in InPlay(hop, root, s) && !e.withdrawn| >= q ==>
              Judge(hop, root, s, q) == ByVotes
    ensures !RootRevokes(hop, root, s) && |set e | e in InPlay(hop, root, s) && !e.withdrawn| < q ==>
              && (Judge(hop, root, s, q) == Free || Judge(hop, root, s, q).Latched?)
              && forall x: Epoch :: Judge(hop, root, s, q) == Latched(x) <==> LatchedAt(hop, root, s, q, x)
  {
    hide Counts, RootEntry, MayVote, OfRoot, RootScan, VotesVerdict, LatchedAt;
    if RootRevokes(hop, root, s) {
      RootIsHeard(hop, root, s);
    } else {
      var floor := FloorMeans(hop, root, s);
      VotesMean(hop, root, s, q, floor);
    }
  }

  lemma RootIsHeard(hop: Hop, root: Key, s: seq<Entry>)
    requires RootRevokes(hop, root, s) && RootsAgree(hop, root, s)
    ensures RootScan(hop, root, s, None) == Settled
  {
    hide Counts, RootEntry, MayVote, OfRoot, RootScan;
    var vote :| vote in s && MayVote(hop, vote) && OfRoot(hop, root, vote) && !vote.withdrawn;
    RootsVoteMeans(hop, root, vote);
    var live :| live in s && RootsVote(hop, root, live) && !live.withdrawn &&
                forall e <- s :: RootsVote(hop, root, e) && e.withdrawn ==> e.epoch < live.epoch;
    LiveIsHeard(hop, root, s, None, live);
  }

  lemma VotesMean(hop: Hop, root: Key, s: seq<Entry>, q: nat, floor: Option<Epoch>)
    requires q > 0 && OnePerTriple(s)
    requires forall x: nat :: First(floor) <= x <==> PastUndo(hop, root, s, x)
    requires forall e :: e in InPlay(hop, root, s) <==> e in s && Counts(hop, floor, e)
    ensures var v, live := VotesVerdict(hop, floor, s, q), |set e | e in InPlay(hop, root, s) && !e.withdrawn|;
            && (live >= q ==> v == ByVotes)
            && (live < q ==> (v == Free || v.Latched?) && forall x: Epoch :: v == Latched(x) <==> LatchedAt(hop, root, s, q, x))
  {
    hide Counts, MayVote, PastUndo, Open, InPlay, LatchedAt;
    CountIs(s, e => Counts(hop, floor, e) && !e.withdrawn, set e | e in InPlay(hop, root, s) && !e.withdrawn);
    var x := Open(hop, floor, s, q);
    forall y: Epoch
      ensures VotesVerdict(hop, floor, s, q) == Latched(y) && Live(hop, floor, s) < q ==> LatchedAt(hop, root, s, q, y)
      ensures LatchedAt(hop, root, s, q, y) ==> y == x && CastIn(hop, floor, s, y) >= q && WithdrawnIn(hop, floor, s, y) < q
    {
      LatchMeans(hop, root, s, q, floor, y);
    }
  }

  lemma LatchMeans(hop: Hop, root: Key, s: seq<Entry>, q: nat, floor: Option<Epoch>, x: Epoch)
    requires q > 0 && OnePerTriple(s)
    requires forall y: nat :: First(floor) <= y <==> PastUndo(hop, root, s, y)
    requires forall e :: e in InPlay(hop, root, s) <==> e in s && Counts(hop, floor, e)
    ensures LatchedAt(hop, root, s, q, x) <==>
            x == Open(hop, floor, s, q) && CastIn(hop, floor, s, x) >= q && WithdrawnIn(hop, floor, s, x) < q
  {
    hide Counts, MayVote, PastUndo, Open, InPlay, IsOpenEpoch, HaveLeft;
    CountIs(s, e => Counts(hop, floor, e) && e.epoch == x, set e | e in InPlay(hop, root, s) && e.epoch == x);
    CountIs(s, e => Counts(hop, floor, e) && e.epoch == x && e.withdrawn,
            set e | e in InPlay(hop, root, s) && e.epoch == x && e.withdrawn);
    forall y: Epoch
      ensures Left(hop, floor, s, y) == |HaveLeft(InPlay(hop, root, s), y)|
    {
      LeftMeans(hop, root, s, floor, y);
    }
    OpenMeans(hop, root, s, q, floor, x);
  }

  lemma LeftMeans(hop: Hop, root: Key, s: seq<Entry>, floor: Option<Epoch>, y: Epoch)
    requires OnePerTriple(s) && forall e :: e in InPlay(hop, root, s) <==> e in s && Counts(hop, floor, e)
    ensures Left(hop, floor, s, y) == |HaveLeft(InPlay(hop, root, s), y)|
  {
    hide Counts, InPlay;
    CountIs(s, e => Counts(hop, floor, e) && HasLeft(y, e), HaveLeft(InPlay(hop, root, s), y));
  }

  /** With `q` votes cast in it, an epoch is the open one exactly when it is the first that fewer than `q` have left. */
  lemma OpenMeans(hop: Hop, root: Key, s: seq<Entry>, q: nat, floor: Option<Epoch>, x: Epoch)
    requires q > 0
    requires forall y: nat :: First(floor) <= y <==> PastUndo(hop, root, s, y)
    requires forall y: Epoch :: Left(hop, floor, s, y) == |HaveLeft(InPlay(hop, root, s), y)|
    ensures CastIn(hop, floor, s, x) >= q && WithdrawnIn(hop, floor, s, x) < q ==>
              (x == Open(hop, floor, s, q) <==>
               |HaveLeft(InPlay(hop, root, s), x)| < q &&
               forall y: Epoch :: y < x && PastUndo(hop, root, s, y) ==> |HaveLeft(InPlay(hop, root, s), y)| >= q)
  {
    hide Counts, PastUndo, Open, InPlay, HaveLeft;
    if CastIn(hop, floor, s, x) >= q && WithdrawnIn(hop, floor, s, x) < q {
      CountSome(s, e => Counts(hop, floor, e) && e.epoch == x);
      var vote :| vote in s && Counts(hop, floor, vote) && vote.epoch == x;
      CountsAbove(hop, floor, vote);
      LastEpoch(hop, floor, s);
      var o, b := Open(hop, floor, s, q), InPlay(hop, root, s);
      assert First(floor) <= x;
      if x == o {
        assert Closed(hop, floor, s, x, q) ==> x == EPOCH_MAX;
        forall y: Epoch | y < x && PastUndo(hop, root, s, y)
          ensures |HaveLeft(b, y)| >= q
        {
          assert Closed(hop, floor, s, y, q);
        }
      } else if |HaveLeft(b, x)| < q && forall y: Epoch :: y < x && PastUndo(hop, root, s, y) ==> |HaveLeft(b, y)| >= q {
        forall y: Epoch | First(floor) <= y < x
          ensures Closed(hop, floor, s, y, q)
        {
          assert PastUndo(hop, root, s, y);
        }
        assert IsOpenEpoch(hop, floor, s, q, x);
        OpenEpochUnique(hop, floor, s, q, x, o);
      }
    }
  }

  /** Nothing is cast after the last epoch. */
  lemma LastEpoch(hop: Hop, floor: Option<Epoch>, s: seq<Entry>)
    ensures Left(hop, floor, s, EPOCH_MAX) == WithdrawnIn(hop, floor, s, EPOCH_MAX)
  {
    hide Counts;
    CountSame(s, e => Counts(hop, floor, e) && HasLeft(EPOCH_MAX, e), e => Counts(hop, floor, e) && e.epoch == EPOCH_MAX && e.withdrawn);
  }

  // ---- one vote at quorum one, and the links of a chain ----------------------------------------------------------

  /** At quorum one and with no entry of a root's about the hop, any live entry with a say revokes, and nothing else does. */
  lemma OneVoteRevokes(hop: Hop, root: Key, s: seq<Entry>)
    requires forall e :: e in s && MayVote(hop, e) ==> !OfRoot(hop, root, e)
    ensures Judge(hop, root, s, 1) != Free <==> exists e :: e in s && MayVote(hop, e) && !e.withdrawn
  {
    hide Counts, MayVote, OfRoot, RootScan, Judge;
    var floor := FloorMeans(hop, root, s);
    QuorumOne(hop, root, s);
  }

  /** Hop `i` of a chain is put to the grantors at and above it and the admins who stand: under one pinned root at quorum one it
      is revoked exactly by the root's live vote, or by a live vote of one of those past the root's undo. */
  lemma LinkRevokedIff(store: Store, grantors: seq<Key>, grantee: Key, i: nat, cap: Cap, standing: set<Key>)
    requires store.roots.Pinned? && store.quorum <= 1 && OnePerTriple(store.entries) && i < |grantors|
    ensures HopRevoked(store, grantors, grantee, i, cap, standing) <==>
            exists e :: e in store.entries && !e.withdrawn && e.cap == cap && e.grantee == grantee &&
              (e.issuer == grantors[0] ||
               (((exists j :: 0 <= j <= i && grantors[j] == e.issuer) ||
                 (store.hasAdmin && e.issuer in standing && exists ad :: ad in store.admins && ad.key == e.issuer)) &&
                forall u :: u in store.entries && u.cap == cap && u.grantee == grantee && u.issuer == grantors[0] && u.withdrawn ==>
                  e.epoch > u.epoch))
  {
    hide Counts, Judge, RootScan, MayVote, OfRoot;
    var hop, root, s := HopOf(store, grantors, grantee, i, cap, standing), grantors[0], store.entries;
    forall e: Entry
      ensures MayVote(hop, e) <==>
              e.cap == cap && e.grantee == grantee &&
              ((exists j :: 0 <= j <= i && grantors[j] == e.issuer) ||
               (store.hasAdmin && e.issuer in standing && exists ad :: ad in store.admins && ad.key == e.issuer))
      ensures OfRoot(hop, root, e) <==> e.issuer == root
      ensures RootsVote(hop, root, e) <==> MayVote(hop, e) && e.issuer == root
      ensures Counts(hop, None, e) <==> MayVote(hop, e)
    {
      LinkVoters(store, grantors, grantee, i, cap, standing, e);
      RootsVoteMeans(hop, root, e);
      CountsMeans(hop, e);
    }
    assert grantors[0] == root;
    QuorumOnePinned(hop, root, s);
  }

  lemma LinkVoters(store: Store, grantors: seq<Key>, grantee: Key, i: nat, cap: Cap, standing: set<Key>, e: Entry)
    requires store.roots.Pinned? && i < |grantors|
    ensures var hop := HopOf(store, grantors, grantee, i, cap, standing);
            && (MayVote(hop, e) <==>
                 e.cap == cap && e.grantee == grantee &&
                 ((exists j :: 0 <= j <= i && grantors[j] == e.issuer) ||
                  (store.hasAdmin && e.issuer in standing && exists ad :: ad in store.admins && ad.key == e.issuer)))
            && (OfRoot(hop, grantors[0], e) <==> e.issuer == grantors[0])
  {
    var above := grantors[..i + 1];
    assert e.issuer in above <==> exists j :: 0 <= j <= i && grantors[j] == e.issuer;
  }
}
