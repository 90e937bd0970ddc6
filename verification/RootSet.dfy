/** The root set of chain/root_log.c: membership and removal, which refer to each other, settled in bounded rounds. */
module RootSet {

  type Key = nat
  type Id = nat

  /** A root added or removed. Ids are hashes of the records: a set holds each once. */
  datatype Change = Change(add: bool, signer: Key, subject: Key, cut: Id, id: Id)

  /** The log that says which of a removed root's acts stand before its cut, if there is one. */
  datatype Acts = NoActs | Acts(stands: (Key, Id, Id) -> bool)

  /** What a reading settles: the adds and the removals that count. */
  datatype View = View(adds: set<Change>, rems: set<Change>)

  // ---- the rules ------------------------------------------------------------------------------

  predicate MemberIn(genesis: Key, adds: set<Change>, key: Key) {
    key == genesis || exists c :: c in adds && c.subject == key
  }

  /** The removal leaves the act standing. */
  predicate Spares(acts: Acts, c: Change, root: Key, act: Id) {
    acts.Acts? && c.cut != 0 && acts.stands(root, c.cut, act)
  }

  /** The act rule: a member's act, spared by every counting removal of its root. */
  predicate CountsIn(genesis: Key, acts: Acts, adds: set<Change>, rems: set<Change>, root: Key, act: Id) {
    MemberIn(genesis, adds, root) && forall c <- rems :: c.subject == root ==> Spares(acts, c, root, act)
  }

  ghost predicate ClosedUnder(genesis: Key, acts: Acts, all: set<Change>, rems: set<Change>, t: set<Change>) {
    forall c <- all :: c.add && CountsIn(genesis, acts, t, rems, c.signer, c.id) ==> c in t
  }

  /** Membership with the removals fixed: the adds in every closed set, the least fixed point from genesis. */
  ghost function Least(genesis: Key, acts: Acts, all: set<Change>, rems: set<Change>): (s: set<Change>) {
    set c | c in all && c.add && forall t: set<Change> :: ClosedUnder(genesis, acts, all, rems, t) ==> c in t
  }

  /** The removals whose signers are members. */
  function Removals(genesis: Key, all: set<Change>, adds: set<Change>): (s: set<Change>) {
    set c | c in all && !c.add && MemberIn(genesis, adds, c.signer)
  }

  /** The rounds: grow membership under the removals, recompute the removals from it, until they stop changing; a set that has
      not settled in the rounds it has takes every removal any of them saw. */
  ghost function Rounds(genesis: Key, acts: Acts, all: set<Change>, rems: set<Change>, seen: set<Change>, left: nat): (v: View)
    decreases left
  {
    if left == 0 then View(Least(genesis, acts, all, seen), seen)
    else
      var adds := Least(genesis, acts, all, rems);
      var next := Removals(genesis, all, adds);
      if next == rems then View(adds, rems)
      else Rounds(genesis, acts, all, next, seen + next, left - 1)
  }

  ghost function Settled(genesis: Key, acts: Acts, all: set<Change>, n: nat): (v: View) {
    Rounds(genesis, acts, all, {}, {}, n + 1)
  }

  /** The act rule over the fields: the root is genesis or an added subject, and every counting removal of it has a cut the log
      puts the act behind. */
  lemma ActRule(genesis: Key, acts: Acts, adds: set<Change>, rems: set<Change>, root: Key, act: Id)
    ensures CountsIn(genesis, acts, adds, rems, root, act) <==>
            && (root == genesis || exists c :: c in adds && c.subject == root)
            && forall m :: m in rems && m.subject == root ==> m.cut != 0 && acts.Acts? && acts.stands(root, m.cut, act)
  {
  }

  /** And a removal counts by its signer's membership alone, removed or not. */
  lemma RemovalRule(genesis: Key, all: set<Change>, adds: set<Change>, m: Change)
    ensures m in Removals(genesis, all, adds) <==>
            m in all && !m.add && (m.signer == genesis || exists c :: c in adds && c.subject == m.signer)
  {
  }

  // ---- what settling gives -----------------------------------------------------------------------

  lemma CountsMonotone(genesis: Key, acts: Acts, s: set<Change>, t: set<Change>, rems: set<Change>, root: Key, act: Id)
    requires s <= t && CountsIn(genesis, acts, s, rems, root, act)
    ensures CountsIn(genesis, acts, t, rems, root, act)
  {
  }

  lemma LeastIsClosed(genesis: Key, acts: Acts, all: set<Change>, rems: set<Change>)
    ensures ClosedUnder(genesis, acts, all, rems, Least(genesis, acts, all, rems))
  {
    hide CountsIn;
    var least := Least(genesis, acts, all, rems);
    forall c <- all | c.add && CountsIn(genesis, acts, least, rems, c.signer, c.id)
      ensures c in least
    {
      forall t: set<Change> | ClosedUnder(genesis, acts, all, rems, t)
        ensures c in t
      {
        assert least <= t;
        CountsMonotone(genesis, acts, least, t, rems, c.signer, c.id);
      }
    }
  }

  lemma ClosedWithout(genesis: Key, acts: Acts, all: set<Change>, rems: set<Change>, t: set<Change>, c: Change)
    requires ClosedUnder(genesis, acts, all, rems, t) && !CountsIn(genesis, acts, t, rems, c.signer, c.id)
    ensures ClosedUnder(genesis, acts, all, rems, t - {c})
  {
    hide CountsIn;
    forall d <- all | d.add && CountsIn(genesis, acts, t - {c}, rems, d.signer, d.id)
      ensures d in t - {c}
    {
      CountsMonotone(genesis, acts, t - {c}, t, rems, d.signer, d.id);
    }
  }

  /** Every member added stands on one already standing: the least fixed point is a fixed point. */
  lemma LeastIsFixed(genesis: Key, acts: Acts, all: set<Change>, rems: set<Change>, c: Change)
    ensures c in Least(genesis, acts, all, rems) <==>
            c in all && c.add && CountsIn(genesis, acts, Least(genesis, acts, all, rems), rems, c.signer, c.id)
  {
    hide CountsIn;
    var least := Least(genesis, acts, all, rems);
    LeastIsClosed(genesis, acts, all, rems);
    if !CountsIn(genesis, acts, least, rems, c.signer, c.id) {
      ClosedWithout(genesis, acts, all, rems, least, c);
    }
  }

  /** The members and removals each follow from the other. */
  ghost predicate Consistent(genesis: Key, acts: Acts, all: set<Change>, v: View) {
    v.adds == Least(genesis, acts, all, v.rems) && v.rems == Removals(genesis, all, v.adds)
  }

  /** The removals a round computes from the one before it. */
  ghost function RoundRems(genesis: Key, acts: Acts, all: set<Change>, round: nat): (s: set<Change>) {
    if round == 0 then {}
    else Removals(genesis, all, Least(genesis, acts, all, RoundRems(genesis, acts, all, round - 1)))
  }

  /** The removals rounds 1 to `round` saw. */
  ghost function SeenBy(genesis: Key, acts: Acts, all: set<Change>, round: nat): (s: set<Change>) {
    if round == 0 then {} else SeenBy(genesis, acts, all, round - 1) + RoundRems(genesis, acts, all, round)
  }

  // ---- the loops ------------------------------------------------------------------------------------

  /** Each record is held once. */
  ghost predicate Distinct(changes: seq<Change>) {
    forall i, j :: 0 <= i < j < |changes| ==> changes[i] != changes[j]
  }

  function AsSet(changes: seq<Change>): (s: set<Change>) {
    set c | c in changes
  }

  ghost function Flagged(changes: seq<Change>, flags: seq<bool>): (s: set<Change>)
    requires |flags| == |changes|
  {
    set i | 0 <= i < |changes| && flags[i] :: changes[i]
  }

  lemma FlagOf(changes: seq<Change>, flags: seq<bool>, i: nat)
    requires Distinct(changes) && |flags| == |changes| && i < |changes|
    ensures changes[i] in Flagged(changes, flags) <==> flags[i]
  {
    if changes[i] in Flagged(changes, flags) {
      var j :| 0 <= j < |changes| && flags[j] && changes[j] == changes[i];
      assert j == i;
    }
  }

  lemma FlaggedUp(changes: seq<Change>, flags: seq<bool>, i: nat)
    requires |flags| == |changes| && i < |changes|
    ensures Flagged(changes, flags[i := true]) == Flagged(changes, flags) + {changes[i]}
  {
    var up := flags[i := true];
    forall c | c in Flagged(changes, up)
      ensures c in Flagged(changes, flags) + {changes[i]}
    {
      var j :| 0 <= j < |changes| && up[j] && changes[j] == c;
      assert j != i ==> flags[j];
    }
    forall c | c in Flagged(changes, flags)
      ensures c in Flagged(changes, up)
    {
      var j :| 0 <= j < |changes| && flags[j] && changes[j] == c;
      assert up[j];
    }
    assert up[i];
  }

  /** Only adds are flagged, or only removals. */
  ghost predicate OnlyKind(changes: seq<Change>, flags: seq<bool>, add: bool) {
    |flags| == |changes| && forall i :: 0 <= i < |flags| && flags[i] ==> changes[i].add == add
  }

  method IsMember(genesis: Key, changes: seq<Change>, addOk: seq<bool>, key: Key) returns (yes: bool)
    requires OnlyKind(changes, addOk, true)
    ensures yes == MemberIn(genesis, Flagged(changes, addOk), key)
  {
    if key == genesis {
      return true;
    }
    for i := 0 to |changes|
      invariant forall j :: 0 <= j < i && addOk[j] ==> changes[j].subject != key
    {
      if changes[i].add && addOk[i] && changes[i].subject == key {
        assert changes[i] in Flagged(changes, addOk);
        return true;
      }
    }
    yes := false;
  }

  method ActCounts(genesis: Key, acts: Acts, changes: seq<Change>, addOk: seq<bool>, remOk: seq<bool>, root: Key, act: Id)
    returns (yes: bool)
    requires OnlyKind(changes, addOk, true) && OnlyKind(changes, remOk, false)
    ensures yes == CountsIn(genesis, acts, Flagged(changes, addOk), Flagged(changes, remOk), root, act)
  {
    hide MemberIn;
    var member := IsMember(genesis, changes, addOk, root);
    if !member {
      return false;
    }
    for i := 0 to |changes|
      invariant forall j :: 0 <= j < i && remOk[j] && changes[j].subject == root ==> Spares(acts, changes[j], root, act)
    {
      if !changes[i].add && remOk[i] && changes[i].subject == root && !Spares(acts, changes[i], root, act) {
        assert changes[i] in Flagged(changes, remOk);
        return false;
      }
    }
    yes := true;
  }

  function Lowered(flags: seq<bool>): (n: nat) {
    if |flags| == 0 then 0 else Lowered(flags[..|flags| - 1]) + if flags[|flags| - 1] then 0 else 1
  }

  lemma {:induction false} LoweredDown(flags: seq<bool>, i: nat)
    requires i < |flags| && !flags[i]
    ensures Lowered(flags[i := true]) + 1 == Lowered(flags)
  {
    var n := |flags| - 1;
    if i < n {
      LoweredDown(flags[..n], i);
      assert flags[i := true][..n] == flags[..n][i := true];
    } else {
      assert flags[i := true][..n] == flags[..n];
    }
  }

  lemma CountsIsLeast(genesis: Key, acts: Acts, all: set<Change>, rems: set<Change>, s: set<Change>, c: Change)
    requires s <= Least(genesis, acts, all, rems) && c in all && c.add && CountsIn(genesis, acts, s, rems, c.signer, c.id)
    ensures c in Least(genesis, acts, all, rems)
  {
    hide CountsIn;
    LeastIsClosed(genesis, acts, all, rems);
    CountsMonotone(genesis, acts, s, Least(genesis, acts, all, rems), rems, c.signer, c.id);
  }

  /** One pass over the adds. */
  method GrowPass(genesis: Key, acts: Acts, changes: seq<Change>, addOk0: seq<bool>, remOk: seq<bool>)
    returns (addOk: seq<bool>, changed: bool)
    requires Distinct(changes) && OnlyKind(changes, addOk0, true) && OnlyKind(changes, remOk, false)
    requires Flagged(changes, addOk0) <= Least(genesis, acts, AsSet(changes), Flagged(changes, remOk))
    ensures OnlyKind(changes, addOk, true)
    ensures Flagged(changes, addOk) <= Least(genesis, acts, AsSet(changes), Flagged(changes, remOk))
    ensures Lowered(addOk) + (if changed then 1 else 0) <= Lowered(addOk0)
    ensures !changed ==> ClosedUnder(genesis, acts, AsSet(changes), Flagged(changes, remOk), Flagged(changes, addOk))
  {
    hide Flagged, CountsIn, Least;
    ghost var all, rems := AsSet(changes), Flagged(changes, remOk);
    addOk, changed := addOk0, false;
    for i := 0 to |changes|
      invariant OnlyKind(changes, addOk, true) && Lowered(addOk) + (if changed then 1 else 0) <= Lowered(addOk0)
      invariant Flagged(changes, addOk) <= Least(genesis, acts, all, rems)
      invariant !changed ==> addOk == addOk0
      invariant !changed ==> forall j :: 0 <= j < i && changes[j].add ==>
                  CountsIn(genesis, acts, Flagged(changes, addOk), rems, changes[j].signer, changes[j].id) ==> addOk[j]
    {
      var c := changes[i];
      if c.add && !addOk[i] {
        var counts := ActCounts(genesis, acts, changes, addOk, remOk, c.signer, c.id);
        if counts {
          CountsIsLeast(genesis, acts, all, rems, Flagged(changes, addOk), c);
          FlaggedUp(changes, addOk, i);
          LoweredDown(addOk, i);
          addOk := addOk[i := true];
          changed := true;
        }
      }
    }
    if !changed {
      forall j | 0 <= j < |changes| && changes[j].add &&
                 CountsIn(genesis, acts, Flagged(changes, addOk), rems, changes[j].signer, changes[j].id)
        ensures changes[j] in Flagged(changes, addOk)
      {
        FlagOf(changes, addOk, j);
      }
    }
  }

  lemma NoneFlagged(changes: seq<Change>, flags: seq<bool>)
    requires |flags| == |changes| && forall i :: 0 <= i < |flags| ==> !flags[i]
    ensures Flagged(changes, flags) == {}
  {
  }

  /** Membership grown from genesis until nothing changes. */
  method GrowMembers(genesis: Key, acts: Acts, changes: seq<Change>, remOk: seq<bool>) returns (addOk: seq<bool>)
    requires Distinct(changes) && OnlyKind(changes, remOk, false)
    ensures OnlyKind(changes, addOk, true)
    ensures Flagged(changes, addOk) == Least(genesis, acts, AsSet(changes), Flagged(changes, remOk))
  {
    hide Flagged, Least;
    addOk := seq(|changes|, _ => false);
    NoneFlagged(changes, addOk);
    var changed := true;
    while changed
      invariant OnlyKind(changes, addOk, true)
      invariant Flagged(changes, addOk) <= Least(genesis, acts, AsSet(changes), Flagged(changes, remOk))
      invariant !changed ==> ClosedUnder(genesis, acts, AsSet(changes), Flagged(changes, remOk), Flagged(changes, addOk))
      decreases Lowered(addOk) + if changed then 1 else 0
    {
      addOk, changed := GrowPass(genesis, acts, changes, addOk, remOk);
    }
    InsideClosed(genesis, acts, AsSet(changes), Flagged(changes, remOk), Flagged(changes, addOk));
  }

  lemma InsideClosed(genesis: Key, acts: Acts, all: set<Change>, rems: set<Change>, s: set<Change>)
    requires ClosedUnder(genesis, acts, all, rems, s)
    ensures Least(genesis, acts, all, rems) <= s
  {
    hide ClosedUnder;
  }

  method NextRemovals(genesis: Key, changes: seq<Change>, addOk: seq<bool>) returns (next: seq<bool>)
    requires Distinct(changes) && OnlyKind(changes, addOk, true)
    ensures OnlyKind(changes, next, false)
    ensures Flagged(changes, next) == Removals(genesis, AsSet(changes), Flagged(changes, addOk))
  {
    hide MemberIn;
    next := seq(|changes|, _ => false);
    for i := 0 to |changes|
      invariant |next| == |changes|
      invariant forall j :: 0 <= j < i ==> next[j] == (!changes[j].add && MemberIn(genesis, Flagged(changes, addOk), changes[j].signer))
      invariant forall j :: i <= j < |next| ==> !next[j]
    {
      if !changes[i].add {
        var member := IsMember(genesis, changes, addOk, changes[i].signer);
        next := next[i := member];
      }
    }
    RemovalFlags(genesis, changes, Flagged(changes, addOk), next);
  }

  lemma RemovalFlags(genesis: Key, changes: seq<Change>, adds: set<Change>, next: seq<bool>)
    requires |next| == |changes|
    requires forall j :: 0 <= j < |changes| ==> next[j] == (!changes[j].add && MemberIn(genesis, adds, changes[j].signer))
    ensures Flagged(changes, next) == Removals(genesis, AsSet(changes), adds)
  {
    hide MemberIn;
    forall c | c in Removals(genesis, AsSet(changes), adds)
      ensures c in Flagged(changes, next)
    {
      var i :| 0 <= i < |changes| && changes[i] == c;
      assert next[i];
    }
  }

  lemma SameFlags(changes: seq<Change>, f: seq<bool>, g: seq<bool>)
    requires Distinct(changes) && |f| == |g| == |changes|
    ensures f == g <==> Flagged(changes, f) == Flagged(changes, g)
  {
    if Flagged(changes, f) == Flagged(changes, g) {
      forall i | 0 <= i < |f|
        ensures f[i] == g[i]
      {
        FlagOf(changes, f, i);
        FlagOf(changes, g, i);
      }
    }
  }

  lemma EitherFlags(changes: seq<Change>, f: seq<bool>, g: seq<bool>, either: seq<bool>)
    requires |f| == |g| == |either| == |changes| && forall i :: 0 <= i < |f| ==> either[i] == (f[i] || g[i])
    ensures Flagged(changes, either) == Flagged(changes, f) + Flagged(changes, g)
  {
    forall c | c in Flagged(changes, f) + Flagged(changes, g)
      ensures c in Flagged(changes, either)
    {
      var i :| 0 <= i < |changes| && (f[i] || g[i]) && changes[i] == c;
      assert either[i];
    }
    forall c | c in Flagged(changes, either)
      ensures c in Flagged(changes, f) + Flagged(changes, g)
    {
      var i :| 0 <= i < |changes| && either[i] && changes[i] == c;
      assert f[i] || g[i];
    }
  }

  /** Settles the set. What it settles is a function of the records held and not of the order they are held in. */
  method Settle(genesis: Key, acts: Acts, changes: seq<Change>) returns (addOk: seq<bool>, remOk: seq<bool>)
    requires Distinct(changes)
    ensures OnlyKind(changes, addOk, true) && OnlyKind(changes, remOk, false)
    ensures View(Flagged(changes, addOk), Flagged(changes, remOk)) == Settled(genesis, acts, AsSet(changes), |changes|)
  {
    hide Flagged, Least, Removals;
    remOk := seq(|changes|, _ => false);
    var seen := remOk;
    NoneFlagged(changes, remOk);
    var round := 0;
    while round <= |changes|
      invariant 0 <= round <= |changes| + 1 && OnlyKind(changes, remOk, false) && OnlyKind(changes, seen, false)
      invariant Rounds(genesis, acts, AsSet(changes), Flagged(changes, remOk), Flagged(changes, seen), |changes| + 1 - round) ==
                Settled(genesis, acts, AsSet(changes), |changes|)
    {
      addOk := GrowMembers(genesis, acts, changes, remOk);
      var next := NextRemovals(genesis, changes, addOk);
      var both := seq(|changes|, i requires 0 <= i < |changes| => seen[i] || next[i]);
      EitherFlags(changes, seen, next, both);
      seen := both;
      SameFlags(changes, next, remOk);
      if next == remOk {
        return;
      }
      remOk := next;
      round := round + 1;
    }
    remOk := seen;
    addOk := GrowMembers(genesis, acts, changes, remOk);
  }

  /** Two orders of the same records settle to the same view. */
  lemma SettledReordered(genesis: Key, acts: Acts, s: seq<Change>, t: seq<Change>)
    requires multiset(s) == multiset(t)
    ensures Settled(genesis, acts, AsSet(s), |s|) == Settled(genesis, acts, AsSet(t), |t|)
  {
    assert |s| == |multiset(s)| == |multiset(t)| == |t|;
    assert forall c :: c in s <==> c in multiset(s);
    assert forall c :: c in t <==> c in multiset(t);
    assert AsSet(s) == AsSet(t);
  }

  // ---- a set that never settles ------------------------------------------------------------------------

  const ADDED := Change(true, 0, 1, 0, 10)
  const REMOVES_ADDER := Change(false, 1, 0, 0, 11)

  lemma TwoRoots(rems: set<Change>)
    requires rems <= {REMOVES_ADDER}
    ensures Least(0, NoActs, {ADDED, REMOVES_ADDER}, rems) == if rems == {} then {ADDED} else {}
    ensures Removals(0, {ADDED, REMOVES_ADDER}, {ADDED}) == {REMOVES_ADDER}
    ensures Removals(0, {ADDED, REMOVES_ADDER}, {}) == {}
  {
    LeastIsFixed(0, NoActs, {ADDED, REMOVES_ADDER}, rems, ADDED);
  }

  /** A root that removes, with no cut, the root that added it: membership and removal chase each other round after round,
      and what is kept at the end is the removal, though its signer is then no member. */
  lemma NeverSettles()
    ensures var all := {ADDED, REMOVES_ADDER};
            var v := Settled(0, NoActs, all, 2);
            v == View({}, {REMOVES_ADDER}) && !Consistent(0, NoActs, all, v)
  {
    hide Least, Removals;
    var all := {ADDED, REMOVES_ADDER};
    TwoRoots({});
    TwoRoots({REMOVES_ADDER});
    assert Rounds(0, NoActs, all, {REMOVES_ADDER}, {REMOVES_ADDER}, 0) == View({}, {REMOVES_ADDER});
    assert {} + {REMOVES_ADDER} == {REMOVES_ADDER} && {REMOVES_ADDER} + {} == {REMOVES_ADDER};
    assert Rounds(0, NoActs, all, {}, {REMOVES_ADDER}, 1) == View({}, {REMOVES_ADDER});
    assert Rounds(0, NoActs, all, {REMOVES_ADDER}, {REMOVES_ADDER}, 2) == View({}, {REMOVES_ADDER});
  }
}
