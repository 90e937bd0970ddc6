/** When the rounds of chain/root_log.c settle: the removals of one round bound those of the next from the other side, so the
    rounds close in on a view within their bound or swing between two for ever. */
module Settling {
  import opened RootSet
  import opened Collections

  // ---- the rounds close in ----------------------------------------------------------------------

  /** More removals leave fewer members. */
  lemma FewerMembers(genesis: Key, acts: Acts, all: set<Change>, rems: set<Change>, more: set<Change>)
    requires rems <= more
    ensures Least(genesis, acts, all, more) <= Least(genesis, acts, all, rems)
  {
    hide MemberIn, Spares;
    forall t: set<Change> | ClosedUnder(genesis, acts, all, rems, t)
      ensures ClosedUnder(genesis, acts, all, more, t)
    {
    }
  }

  /** So a round that starts from more removals ends with fewer. */
  lemma RoundTurns(genesis: Key, acts: Acts, all: set<Change>, rems: set<Change>, more: set<Change>)
    requires rems <= more
    ensures Removals(genesis, all, Least(genesis, acts, all, more)) <= Removals(genesis, all, Least(genesis, acts, all, rems))
  {
    hide Least;
    FewerMembers(genesis, acts, all, rems, more);
  }

  lemma NextRound(genesis: Key, acts: Acts, all: set<Change>, r: nat)
    ensures RoundRems(genesis, acts, all, 0) == {}
    ensures RoundRems(genesis, acts, all, r + 1) == Removals(genesis, all, Least(genesis, acts, all, RoundRems(genesis, acts, all, r)))
  {
    hide Least, Removals;
  }

  /** Even rounds ascend and odd rounds descend, each inside the ones before. */
  lemma {:induction false} RoundsPinch(genesis: Key, acts: Acts, all: set<Change>, r: nat)
    ensures var a, b, c := RoundRems(genesis, acts, all, r), RoundRems(genesis, acts, all, r + 1), RoundRems(genesis, acts, all, r + 2);
            if r % 2 == 0 then a <= c <= b else b <= c <= a
  {
    hide RoundRems, Least, Removals;
    NextRound(genesis, acts, all, r);
    NextRound(genesis, acts, all, r + 1);
    if r == 0 {
      RoundTurns(genesis, acts, all, {}, RoundRems(genesis, acts, all, 1));
    } else {
      NextRound(genesis, acts, all, r - 1);
      RoundsPinch(genesis, acts, all, r - 1);
      var a, b, c := RoundRems(genesis, acts, all, r - 1), RoundRems(genesis, acts, all, r), RoundRems(genesis, acts, all, r + 1);
      if r % 2 == 1 {
        RoundTurns(genesis, acts, all, a, c);
        RoundTurns(genesis, acts, all, c, b);
      } else {
        RoundTurns(genesis, acts, all, c, a);
        RoundTurns(genesis, acts, all, b, c);
      }
    }
  }

  /** What all rounds saw is what the first one did: the removals whose signers are members when nothing is removed. */
  lemma {:induction false} SeenIsFirst(genesis: Key, acts: Acts, all: set<Change>, n: nat)
    requires n > 0
    ensures SeenBy(genesis, acts, all, n) == RoundRems(genesis, acts, all, 1) ==
            Removals(genesis, all, Least(genesis, acts, all, {}))
  {
    hide RoundRems, Least, Removals;
    NextRound(genesis, acts, all, 0);
    NextRound(genesis, acts, all, n - 1);
    RoundTurns(genesis, acts, all, {}, RoundRems(genesis, acts, all, n - 1));
    if n > 1 {
      SeenIsFirst(genesis, acts, all, n - 1);
    } else {
      assert SeenBy(genesis, acts, all, 0) == {};
    }
  }

  // ---- within the bound or never ------------------------------------------------------------------

  ghost predicate SettledAt(genesis: Key, acts: Acts, all: set<Change>, r: nat) {
    RoundRems(genesis, acts, all, r) == RoundRems(genesis, acts, all, r + 1)
  }

  /** Two rounds alike make every later one like them; so do two alike with one between. */
  lemma {:induction false} Repeats(genesis: Key, acts: Acts, all: set<Change>, r: nat, period: nat, k: nat)
    requires r <= k && RoundRems(genesis, acts, all, r) == RoundRems(genesis, acts, all, r + period)
    ensures RoundRems(genesis, acts, all, k) == RoundRems(genesis, acts, all, k + period)
    decreases k
  {
    hide RoundRems, Least, Removals;
    if r < k {
      Repeats(genesis, acts, all, r, period, k - 1);
      NextRound(genesis, acts, all, k - 1);
      NextRound(genesis, acts, all, k - 1 + period);
    }
  }

  /** How far a round is from the next. */
  ghost function Gap(genesis: Key, acts: Acts, all: set<Change>, r: nat): (n: int) {
    var a, b := |RoundRems(genesis, acts, all, r)|, |RoundRems(genesis, acts, all, r + 1)|;
    if r % 2 == 0 then b - a else a - b
  }

  lemma GapZero(genesis: Key, acts: Acts, all: set<Change>, r: nat)
    ensures Gap(genesis, acts, all, r) >= 0 && (Gap(genesis, acts, all, r) == 0 <==> SettledAt(genesis, acts, all, r))
  {
    hide RoundRems;
    var a, b := RoundRems(genesis, acts, all, r), RoundRems(genesis, acts, all, r + 1);
    RoundsPinch(genesis, acts, all, r);
    if r % 2 == 0 {
      SubsetSize(a, b);
    } else {
      SubsetSize(b, a);
    }
  }

  /** The gap shrinks every round, or the rounds swing between two. */
  lemma GapShrinks(genesis: Key, acts: Acts, all: set<Change>, r: nat)
    ensures Gap(genesis, acts, all, r + 1) < Gap(genesis, acts, all, r) ||
            RoundRems(genesis, acts, all, r) == RoundRems(genesis, acts, all, r + 2)
  {
    hide RoundRems;
    var a, c := RoundRems(genesis, acts, all, r), RoundRems(genesis, acts, all, r + 2);
    RoundsPinch(genesis, acts, all, r);
    if r % 2 == 0 {
      SubsetSize(a, c);
    } else {
      SubsetSize(c, a);
    }
  }

  lemma {:induction false} GapBound(genesis: Key, acts: Acts, all: set<Change>, r: nat, k: nat)
    requires SettledAt(genesis, acts, all, r)
    ensures Gap(genesis, acts, all, k) == 0 || Gap(genesis, acts, all, k) + k <= |RoundRems(genesis, acts, all, 1)|
    decreases k
  {
    hide RoundRems, Gap;
    if k == 0 {
      FirstGap(genesis, acts, all);
    } else {
      var j := k - 1;
      GapBound(genesis, acts, all, r, j);
      GapZero(genesis, acts, all, j);
      GapZero(genesis, acts, all, k);
      GapShrinks(genesis, acts, all, j);
      if SettledAt(genesis, acts, all, j) {
        Repeats(genesis, acts, all, j, 1, k);
      } else if RoundRems(genesis, acts, all, j) == RoundRems(genesis, acts, all, j + 2) {
        Swings(genesis, acts, all, j, r);
      }
    }
  }

  lemma FirstGap(genesis: Key, acts: Acts, all: set<Change>)
    ensures Gap(genesis, acts, all, 0) == |RoundRems(genesis, acts, all, 1)|
  {
    hide Least, Removals;
    assert RoundRems(genesis, acts, all, 0) == {};
  }

  /** Rounds that swing never settle. */
  lemma Swings(genesis: Key, acts: Acts, all: set<Change>, j: nat, r: nat)
    requires RoundRems(genesis, acts, all, j) == RoundRems(genesis, acts, all, j + 2) && SettledAt(genesis, acts, all, r)
    ensures SettledAt(genesis, acts, all, j)
  {
    hide RoundRems;
    var k := if r < j then j else if (r - j) % 2 == 0 then r else r + 1;
    Repeats(genesis, acts, all, r, 1, k);
    Back(genesis, acts, all, j, k);
  }

  lemma {:induction false} Back(genesis: Key, acts: Acts, all: set<Change>, j: nat, k: nat)
    requires RoundRems(genesis, acts, all, j) == RoundRems(genesis, acts, all, j + 2) && j <= k && (k - j) % 2 == 0
    ensures RoundRems(genesis, acts, all, j) == RoundRems(genesis, acts, all, k)
    ensures RoundRems(genesis, acts, all, j + 1) == RoundRems(genesis, acts, all, k + 1)
    decreases k
  {
    hide RoundRems;
    if j < k {
      Back(genesis, acts, all, j, k - 2);
      Repeats(genesis, acts, all, j, 2, k - 2);
      Repeats(genesis, acts, all, j, 2, k - 1);
    }
  }

  /** A set that settles at all has settled by round `n`, for any `n` no less than the removals of the first round. */
  lemma SettlesInTime(genesis: Key, acts: Acts, all: set<Change>, r: nat, n: nat)
    requires SettledAt(genesis, acts, all, r) && n >= |RoundRems(genesis, acts, all, 1)|
    ensures SettledAt(genesis, acts, all, n)
  {
    hide RoundRems, Gap;
    GapBound(genesis, acts, all, r, n);
    GapZero(genesis, acts, all, n);
  }

  // ---- what the code answers, exactly ---------------------------------------------------------------

  lemma {:induction false} RoundsEnd(genesis: Key, acts: Acts, all: set<Change>, round: nat, left: nat)
    ensures var v := Rounds(genesis, acts, all, RoundRems(genesis, acts, all, round), SeenBy(genesis, acts, all, round), left);
            if exists k :: round <= k < round + left && SettledAt(genesis, acts, all, k) then
              exists k :: round <= k < round + left && SettledAt(genesis, acts, all, k) &&
                          v == View(Least(genesis, acts, all, RoundRems(genesis, acts, all, k)), RoundRems(genesis, acts, all, k))
            else
              v == View(Least(genesis, acts, all, SeenBy(genesis, acts, all, round + left)), SeenBy(genesis, acts, all, round + left))
    decreases left
  {
    hide RoundRems, Least, Removals;
    if left > 0 {
      NextRound(genesis, acts, all, round);
      if !SettledAt(genesis, acts, all, round) {
        RoundsEnd(genesis, acts, all, round + 1, left - 1);
      }
    }
  }

  /** Settling, exactly: the view is mutually consistent when some round repeats the one before it, and it is then the only
      consistent view there is; otherwise it keeps the removals whose signers are members when nothing is removed. */
  lemma SettlesIff(genesis: Key, acts: Acts, all: set<Change>, n: nat)
    requires n >= |RoundRems(genesis, acts, all, 1)|
    ensures var v := Settled(genesis, acts, all, n);
            && (Consistent(genesis, acts, all, v) <==> exists r :: SettledAt(genesis, acts, all, r))
            && (!Consistent(genesis, acts, all, v) ==> v.rems == Removals(genesis, all, Least(genesis, acts, all, {})))
            && v.adds == Least(genesis, acts, all, v.rems)
  {
    hide RoundRems, Least, Removals, Rounds;
    NextRound(genesis, acts, all, 0);
    NextRound(genesis, acts, all, 1);
    assert SeenBy(genesis, acts, all, 0) == {};
    RoundsEnd(genesis, acts, all, 0, n + 1);
    SeenIsFirst(genesis, acts, all, n + 1);
    if r: nat :| SettledAt(genesis, acts, all, r) {
      SettlesInTime(genesis, acts, all, r, n);
      var k: nat :| k < n + 1 && SettledAt(genesis, acts, all, k) &&
                    Settled(genesis, acts, all, n) ==
                    View(Least(genesis, acts, all, RoundRems(genesis, acts, all, k)), RoundRems(genesis, acts, all, k));
      NextRound(genesis, acts, all, k);
    } else if Consistent(genesis, acts, all, Settled(genesis, acts, all, n)) {
      assert SettledAt(genesis, acts, all, 1);
    }
  }

  /** The bound the code uses, one round more than the records held, is enough. */
  lemma BoundSuffices(genesis: Key, acts: Acts, changes: seq<Change>)
    ensures |changes| >= |RoundRems(genesis, acts, AsSet(changes), 1)|
  {
    hide Least;
    SetOfSeq(changes);
    NextRound(genesis, acts, AsSet(changes), 0);
    SubsetSize(RoundRems(genesis, acts, AsSet(changes), 1), AsSet(changes));
  }

  lemma {:induction false} SetOfSeq(changes: seq<Change>)
    ensures |AsSet(changes)| <= |changes|
  {
    if |changes| > 0 {
      var n := |changes| - 1;
      SetOfSeq(changes[..n]);
      assert changes == changes[..n] + [changes[n]];
      assert AsSet(changes) == AsSet(changes[..n]) + {changes[n]};
    }
  }

  /** A set that settles has one consistent view. */
  lemma OneView(genesis: Key, acts: Acts, all: set<Change>, r: nat, v: View)
    requires SettledAt(genesis, acts, all, r) && Consistent(genesis, acts, all, v)
    ensures v.rems == RoundRems(genesis, acts, all, r)
  {
    hide RoundRems, Least, Removals;
    Encloses(genesis, acts, all, v, r);
    Encloses(genesis, acts, all, v, r + 1);
  }

  lemma {:induction false} Encloses(genesis: Key, acts: Acts, all: set<Change>, v: View, r: nat)
    requires Consistent(genesis, acts, all, v)
    ensures if r % 2 == 0 then RoundRems(genesis, acts, all, r) <= v.rems else v.rems <= RoundRems(genesis, acts, all, r)
  {
    hide RoundRems, Least, Removals;
    if r == 0 {
      NextRound(genesis, acts, all, 0);
    } else {
      Encloses(genesis, acts, all, v, r - 1);
      NextRound(genesis, acts, all, r - 1);
      if r % 2 == 0 {
        RoundTurns(genesis, acts, all, v.rems, RoundRems(genesis, acts, all, r - 1));
      } else {
        RoundTurns(genesis, acts, all, RoundRems(genesis, acts, all, r - 1), v.rems);
      }
    }
  }

  // ---- sets without a cycle ---------------------------------------------------------------------------

  type Rank = Key -> nat

  /** The rank does not fall from adder to added (genesis needs no add), and grows from whoever removes an adder, other than at a
      cut that spares the add, to whom the add adds: no cycle of adds and removals runs through the removal of an adder. */
  ghost predicate Sheltered(genesis: Key, acts: Acts, all: set<Change>, rank: Rank) {
    forall c :: c in all && c.add && c.subject != genesis ==>
      rank(c.signer) <= rank(c.subject) && Unharmed(acts, all, rank, c)
  }

  ghost predicate Unharmed(acts: Acts, all: set<Change>, rank: Rank, c: Change) {
    forall m :: m in all && !m.add && m.subject == c.signer ==>
      Spares(acts, m, c.signer, c.id) || rank(m.signer) < rank(c.subject)
  }

  /** The same removals among those signed below rank `k`. */
  ghost predicate AgreeBelow(all: set<Change>, rank: Rank, k: nat, x: set<Change>, y: set<Change>) {
    forall c :: c in all && !c.add && rank(c.signer) < k ==> (c in x <==> c in y)
  }

  /** Membership up to a rank depends on the removals signed below it. */
  lemma MembersBelow(genesis: Key, acts: Acts, all: set<Change>, rank: Rank, k: nat, x: set<Change>, y: set<Change>, d: Change)
    requires Sheltered(genesis, acts, all, rank) && AgreeBelow(all, rank, k, x, y)
    requires forall c :: c in y ==> c in all && !c.add
    requires d in Least(genesis, acts, all, x) && rank(d.subject) <= k && d.subject != genesis
    ensures d in Least(genesis, acts, all, y)
  {
    var low := Least(genesis, acts, all, y);
    var t := set c | c in all && c.add && (rank(c.subject) > k || c.subject == genesis || c in low);
    LeastIsClosed(genesis, acts, all, y);
    forall c | c in all && c.add && CountsIn(genesis, acts, t, x, c.signer, c.id)
      ensures c in t
    {
      if rank(c.subject) <= k && c.subject != genesis {
        if c.signer != genesis {
          var e :| e in t && e.subject == c.signer;
          assert e in low;
        }
        forall m <- y | m.subject == c.signer
          ensures Spares(acts, m, c.signer, c.id)
        {
          assert Unharmed(acts, all, rank, c);
          if rank(m.signer) < rank(c.subject) {
            assert m in x;
          }
        }
        assert CountsIn(genesis, acts, low, y, c.signer, c.id);
      }
    }
    assert ClosedUnder(genesis, acts, all, x, t);
    assert d in t;
  }

  lemma AgreeFurther(genesis: Key, acts: Acts, all: set<Change>, rank: Rank, k: nat, x: set<Change>, y: set<Change>)
    requires Sheltered(genesis, acts, all, rank) && AgreeBelow(all, rank, k, x, y)
    requires (forall c :: c in x ==> c in all && !c.add) && (forall c :: c in y ==> c in all && !c.add)
    ensures AgreeBelow(all, rank, k + 1, Removals(genesis, all, Least(genesis, acts, all, x)),
                       Removals(genesis, all, Least(genesis, acts, all, y)))
  {
    hide Least, Sheltered;
    var a, b := Least(genesis, acts, all, x), Least(genesis, acts, all, y);
    forall c | c in all && !c.add && rank(c.signer) < k + 1
      ensures MemberIn(genesis, a, c.signer) == MemberIn(genesis, b, c.signer)
    {
      if c.signer != genesis {
        forall d | d in a && d.subject == c.signer
          ensures d in b
        {
          MembersBelow(genesis, acts, all, rank, k, x, y, d);
        }
        forall d | d in b && d.subject == c.signer
          ensures d in a
        {
          MembersBelow(genesis, acts, all, rank, k, y, x, d);
        }
      }
    }
  }

  lemma {:induction false} AgreeAt(genesis: Key, acts: Acts, all: set<Change>, rank: Rank, k: nat)
    requires Sheltered(genesis, acts, all, rank)
    ensures AgreeBelow(all, rank, k, RoundRems(genesis, acts, all, k), RoundRems(genesis, acts, all, k + 1))
  {
    hide RoundRems, Least, Sheltered;
    if k > 0 {
      AgreeAt(genesis, acts, all, rank, k - 1);
      OnlyRemovals(genesis, acts, all, k - 1);
      OnlyRemovals(genesis, acts, all, k);
      NextRound(genesis, acts, all, k - 1);
      NextRound(genesis, acts, all, k);
      AgreeFurther(genesis, acts, all, rank, k - 1, RoundRems(genesis, acts, all, k - 1), RoundRems(genesis, acts, all, k));
    }
  }

  lemma OnlyRemovals(genesis: Key, acts: Acts, all: set<Change>, r: nat)
    ensures forall c :: c in RoundRems(genesis, acts, all, r) ==> c in all && !c.add
  {
    hide Least;
  }

  lemma {:induction false} Highest(all: set<Change>, rank: Rank) returns (k: nat)
    ensures forall c :: c in all ==> rank(c.signer) < k
    decreases |all|
  {
    k := 0;
    if all != {} {
      var c :| c in all;
      k := Highest(all - {c}, rank);
      k := if k > rank(c.signer) then k else rank(c.signer) + 1;
    }
  }

  /** A set without such a cycle settles. */
  lemma ShelteredSettles(genesis: Key, acts: Acts, all: set<Change>, rank: Rank, n: nat)
    requires Sheltered(genesis, acts, all, rank) && n >= |RoundRems(genesis, acts, all, 1)|
    ensures Consistent(genesis, acts, all, Settled(genesis, acts, all, n))
  {
    hide RoundRems, Least, Sheltered, Consistent, Settled;
    var k := Highest(all, rank);
    AgreeAt(genesis, acts, all, rank, k);
    OnlyRemovals(genesis, acts, all, k);
    OnlyRemovals(genesis, acts, all, k + 1);
    assert SettledAt(genesis, acts, all, k);
    SettlesIff(genesis, acts, all, n);
  }

  /** So a set in which no adder is removed, or only at cuts that spare what it added, settles, however its roots add each other. */
  lemma NoAdderRemoved(genesis: Key, acts: Acts, all: set<Change>, n: nat)
    requires forall c, m :: c in all && c.add && m in all && !m.add && m.subject == c.signer ==> Spares(acts, m, c.signer, c.id)
    requires n >= |RoundRems(genesis, acts, all, 1)|
    ensures Consistent(genesis, acts, all, Settled(genesis, acts, all, n))
  {
    hide RoundRems, Consistent, Settled, Spares;
    ShelteredSettles(genesis, acts, all, _ => 0, n);
  }

  /** The rank grows from adder to added and does not fall from remover to removed: no cycle of adds and removals has an add
      in it. */
  predicate Ranked(genesis: Key, rank: Rank, c: Change) {
    if c.add then c.subject == genesis || rank(c.signer) < rank(c.subject) else rank(c.signer) <= rank(c.subject)
  }

  /** A set without a cycle of roots removing the roots that added them settles. */
  lemma RankedSettles(genesis: Key, acts: Acts, all: set<Change>, rank: Rank, n: nat)
    requires (forall c :: c in all ==> Ranked(genesis, rank, c)) && n >= |RoundRems(genesis, acts, all, 1)|
    ensures Consistent(genesis, acts, all, Settled(genesis, acts, all, n))
  {
    hide RoundRems, Consistent, Settled, Spares;
    assert Sheltered(genesis, acts, all, rank);
    ShelteredSettles(genesis, acts, all, rank, n);
  }

  // ---- crossed lines ------------------------------------------------------------------------------------

  /** Roots 1 and 3 of genesis 0 add 2 and 4; 2 removes 3 and 4 removes 1. */
  const CROSS_ADDS := {Change(true, 0, 1, 0, 10), Change(true, 0, 3, 0, 11), Change(true, 1, 2, 0, 12), Change(true, 3, 4, 0, 13)}
  const CROSS_REMS := {Change(false, 2, 3, 0, 14), Change(false, 4, 1, 0, 15)}

  /** Each removal alone is ranked: neither names a root on its own signer's line of adds. */
  lemma CrossRanked(c: Change) returns (rank: Rank)
    requires c in CROSS_REMS
    ensures forall d :: d in CROSS_ADDS + {c} ==> Ranked(0, rank, d)
  {
    if c.signer == 2 {
      rank := k => if k == 0 then 0 else if k == 1 then 1 else if k == 2 then 2 else if k == 3 then 2 else 3;
    } else {
      rank := k => if k == 0 then 0 else if k == 3 then 1 else if k == 4 then 2 else if k == 1 then 2 else 3;
    }
  }

  lemma CrossFree()
    ensures Removals(0, CROSS_ADDS + CROSS_REMS, Least(0, NoActs, CROSS_ADDS + CROSS_REMS, {})) == CROSS_REMS
  {
    hide Least;
    var all := CROSS_ADDS + CROSS_REMS;
    var free := Least(0, NoActs, all, {});
    forall c | c in CROSS_ADDS && c.signer == 0
      ensures c in free
    {
      LeastIsFixed(0, NoActs, all, {}, c);
    }
    assert Change(true, 0, 1, 0, 10) in free && Change(true, 0, 3, 0, 11) in free;
    forall c | c in CROSS_ADDS
      ensures c in free
    {
      LeastIsFixed(0, NoActs, all, {}, c);
    }
    assert Change(true, 1, 2, 0, 12) in free && Change(true, 3, 4, 0, 13) in free;
  }

  lemma CrossBoth()
    ensures Removals(0, CROSS_ADDS + CROSS_REMS, Least(0, NoActs, CROSS_ADDS + CROSS_REMS, CROSS_REMS)) == {}
  {
    hide Least;
    var all := CROSS_ADDS + CROSS_REMS;
    var both := Least(0, NoActs, all, CROSS_REMS);
    forall c | c in both
      ensures c in CROSS_ADDS && c.signer == 0
    {
      LeastIsFixed(0, NoActs, all, CROSS_REMS, c);
      RemovedRoots(c);
    }
  }

  lemma RemovedRoots(c: Change)
    requires c in CROSS_ADDS
    ensures c.signer != 0 ==> exists m :: m in CROSS_REMS && m.subject == c.signer && !Spares(NoActs, m, c.signer, c.id)
  {
    if c.signer != 0 {
      var m := if c.signer == 3 then Change(false, 2, 3, 0, 14) else Change(false, 4, 1, 0, 15);
      assert m in CROSS_REMS && m.subject == c.signer && !Spares(NoActs, m, c.signer, c.id);
    }
  }

  /** Yet the two together never settle: a cycle can run through two lines, and then both removals are kept. */
  lemma CrossedLines(r: nat)
    ensures !SettledAt(0, NoActs, CROSS_ADDS + CROSS_REMS, r)
    ensures Settled(0, NoActs, CROSS_ADDS + CROSS_REMS, 6).rems == CROSS_REMS
    ensures !Consistent(0, NoActs, CROSS_ADDS + CROSS_REMS, Settled(0, NoActs, CROSS_ADDS + CROSS_REMS, 6))
  {
    hide RoundRems, Least, Removals, Settled;
    var all := CROSS_ADDS + CROSS_REMS;
    CrossFree();
    CrossBoth();
    NextRound(0, NoActs, all, 0);
    NextRound(0, NoActs, all, 1);
    assert RoundRems(0, NoActs, all, 0) == RoundRems(0, NoActs, all, 2) == {};
    assert Change(false, 2, 3, 0, 14) in RoundRems(0, NoActs, all, 1);
    forall i: nat
      ensures !SettledAt(0, NoActs, all, i)
    {
      if SettledAt(0, NoActs, all, i) {
        Swings(0, NoActs, all, 0, i);
      }
    }
    assert |CROSS_REMS| <= 2;
    SettlesIff(0, NoActs, all, 6);
  }
}
