/** When the plan of catalog/sweep.c depends on the order its assertions arrived in: exactly when an entity has more holders
    than the scratch list and this host is one it may drop, or when there is more to remove than room. */
module Arrival {
  import opened Collections
  import opened ByteOrder
  import opened Holders
  import opened Sweep

  ghost predicate SameAssertions(s: seq<Assertion>, t: seq<Assertion>) {
    forall a :: a in s <==> a in t
  }

  lemma SameHolders(s: seq<Assertion>, t: seq<Assertion>, e: Bytes)
    requires SameAssertions(s, t)
    ensures HoldersOf(s, e) == HoldersOf(t, e)
  {
    forall x | x in HoldersOf(s, e)
      ensures x in HoldersOf(t, e)
    {
      var i :| 0 <= i < |s| && Holders.Holds(s[i], e) && s[i].issuer == x;
      assert s[i] in t;
    }
    forall x | x in HoldersOf(t, e)
      ensures x in HoldersOf(s, e)
    {
      var i :| 0 <= i < |t| && Holders.Holds(t[i], e) && t[i].issuer == x;
      assert t[i] in s;
    }
  }

  lemma SamePopulation(s: seq<Assertion>, t: seq<Assertion>, e: Id32)
    requires SameAssertions(s, t)
    ensures e in Population(s) <==> e in Population(t)
  {
    PopulationIs(s);
    PopulationIs(t);
    if e in Population(s) {
      var i :| 0 <= i < |s| && s[i].entity == e;
      assert s[i] in t;
    }
    if e in Population(t) {
      var i :| 0 <= i < |t| && t[i].entity == e;
      assert t[i] in s;
    }
  }

  /** An entity may be removed exactly when this host does not keep it and holds it, enough others do, and the list shows it. */
  lemma RemovableIff(s: seq<Assertion>, policy: Policy, e: Id32)
    ensures FateOf(s, policy, e) == Removable <==>
            && !policy.keeps(e) && policy.self in HoldersOf(s, e) && |HoldersOf(s, e)| - 1 >= policy.minOthers
            && FactsOf(s, e, policy.self).Some?
  {
    hide FactsOf, HoldersOf;
    FactsHonest(s, e, policy.self);
    var h := HoldersOf(s, e);
    if policy.self in h {
      assert h == (h - {policy.self}) + {policy.self};
    }
  }

  /** An entity this host may drop, if only its name is met among the first holders. */
  ghost predicate Wavers(s: seq<Assertion>, policy: Policy, e: Id32) {
    var h := HoldersOf(s, e);
    !policy.keeps(e) && policy.self in h && |h| > HOLDER_SCRATCH && |h| - 1 >= policy.minOthers
  }

  /** Any other entity may be removed in every order or in none. */
  lemma SameFate(s: seq<Assertion>, t: seq<Assertion>, policy: Policy, e: Id32)
    requires SameAssertions(s, t) && !Wavers(s, policy, e)
    ensures FateOf(s, policy, e) == Removable <==> FateOf(t, policy, e) == Removable
  {
    hide FactsOf, SameAssertions, HoldersOf, FateOf;
    SameHolders(s, t, e);
    RemovableIff(s, policy, e);
    RemovableIff(t, policy, e);
    FactsHonest(s, e, policy.self);
    FactsHonest(t, e, policy.self);
  }

  // ---- the removable entities -----------------------------------------------------------------------

  ghost function Removables(s: seq<Assertion>, policy: Policy, p: seq<Id32>): (r: set<Id32>) {
    set e | e in p && FateOf(s, policy, e) == Removable
  }

  lemma RemovablesStep(s: seq<Assertion>, policy: Policy, p: seq<Id32>, e: Id32)
    ensures var before := Removables(s, policy, p);
            Removables(s, policy, p + [e]) == if FateOf(s, policy, e) == Removable then before + {e} else before
    ensures e !in p ==> e !in Removables(s, policy, p)
  {
    hide FateOf;
  }

  lemma {:induction false} RemovablesCount(s: seq<Assertion>, policy: Policy, p: seq<Id32>)
    requires forall i, j :: 0 <= i < j < |p| ==> p[i] != p[j]
    ensures |Removables(s, policy, p)| == WithFate(s, policy, p, Removable)
  {
    hide FateOf, Removables;
    if |p| == 0 {
      NoRemovables(s, policy);
    } else {
      var n := |p| - 1;
      RemovablesCount(s, policy, p[..n]);
      RemovablesStep(s, policy, p[..n], p[n]);
      assert p == p[..n] + [p[n]];
    }
  }

  lemma NoRemovables(s: seq<Assertion>, policy: Policy)
    ensures Removables(s, policy, []) == {}
  {
  }

  /** What may be removed does not depend on arrival, if nothing wavers. */
  lemma SameRemovables(s: seq<Assertion>, t: seq<Assertion>, policy: Policy)
    requires SameAssertions(s, t) && forall e: Id32 :: !Wavers(s, policy, e)
    ensures Removables(s, policy, Population(s)) == Removables(t, policy, Population(t))
  {
    hide FateOf, Wavers, SameAssertions, Population;
    forall e: Id32
      ensures e in Removables(s, policy, Population(s)) <==> e in Removables(t, policy, Population(t))
    {
      SameFate(s, t, policy, e);
      SamePopulation(s, t, e);
    }
  }

  /** Rows are cut off exactly when there are more removable entities than room. */
  lemma CutOffIff(s: seq<Assertion>, policy: Policy)
    ensures Decided(s, policy, Population(s)).truncated == 0 <==> |Removables(s, policy, Population(s))| <= policy.capacity
    ensures Decided(s, policy, Population(s)).truncated > 0 ==> |Decided(s, policy, Population(s)).rows| == policy.capacity
  {
    hide Decided, Removables, Population, WithFate;
    PopulationIs(s);
    RemovablesCount(s, policy, Population(s));
    Partition(s, policy, Population(s));
  }

  /** Two hosts with the same assertions, in whatever order and number they arrived, plan the same rows in the same order,
      when no entity wavers and there is room for what may be removed. */
  lemma SamePlan(s: seq<Assertion>, t: seq<Assertion>, policy: Policy)
    requires SameAssertions(s, t) && (forall e: Id32 :: !Wavers(s, policy, e))
    requires |Removables(s, policy, Population(s))| <= policy.capacity
    ensures Decided(s, policy, Population(s)).rows == Decided(t, policy, Population(t)).rows
  {
    hide Decided, FateOf, Ascending, Wavers, Population, SameAssertions;
    SameRemovables(s, t, policy);
    CutOffIff(s, policy);
    CutOffIff(t, policy);
    PopulationIs(s);
    PopulationIs(t);
    RowsAre(s, policy, Population(s));
    RowsAre(t, policy, Population(t));
    var a, b := Decided(s, policy, Population(s)).rows, Decided(t, policy, Population(t)).rows;
    forall e: Id32
      ensures e in a <==> e in b
    {
      assert e in Removables(s, policy, Population(s)) <==> e in Removables(t, policy, Population(t));
    }
    AscendingUnique(a, b);
  }

  // ---- when rows are cut off ------------------------------------------------------------------------------------

  lemma {:induction false} RowsFewer(rows: seq<Id32>)
    ensures |set e | e in rows| <= |rows|
  {
    if |rows| > 0 {
      var n := |rows| - 1;
      RowsFewer(rows[..n]);
      assert rows == rows[..n] + [rows[n]];
      assert (set e | e in rows) == (set e | e in rows[..n]) + {rows[n]};
    }
  }

  /** Some removable entity is left out. */
  lemma LeftOut(s: seq<Assertion>, policy: Policy) returns (e: Id32)
    requires |Removables(s, policy, Population(s))| > policy.capacity
    ensures e in Removables(s, policy, Population(s)) && e !in Decided(s, policy, Population(s)).rows
  {
    hide Decided, FateOf, Population;
    CutOffIff(s, policy);
    var rows, all := Decided(s, policy, Population(s)).rows, Removables(s, policy, Population(s));
    var kept := set x | x in rows;
    RowsFewer(rows);
    if all <= kept {
      SubsetSize(all, kept);
      assert false;
    }
    e :| e in all && e !in kept;
  }

  lemma {:induction false} ComesFirst(a: Assertion, s: seq<Assertion>)
    requires |a.entity| == ID_LEN
    ensures |Population([a] + s)| > 0 && Population([a] + s)[0] == a.entity
  {
    var t := [a] + s;
    if |s| == 0 {
      assert t[..0] == [];
    } else {
      ComesFirst(a, s[..|s| - 1]);
      assert t[..|t| - 1] == [a] + s[..|s| - 1];
    }
  }

  /** The first removable entity decided is planned. */
  lemma {:induction false} FirstIsPlanned(s: seq<Assertion>, policy: Policy, p: seq<Id32>)
    requires |p| > 0 && policy.capacity > 0 && FateOf(s, policy, p[0]) == Removable
    ensures p[0] in Decided(s, policy, p).rows
  {
    hide FateOf, Inserted;
    var n := |p| - 1;
    if n == 0 {
      assert p[..0] == [];
      InsertedMembers([], p[0]);
    } else {
      FirstIsPlanned(s, policy, p[..n]);
      InsertedMembers(Decided(s, policy, p[..n]).rows, p[n]);
    }
  }

  lemma Fronted(s: seq<Assertion>, i: nat)
    requires i < |s|
    ensures var t := [s[i]] + (s[..i] + s[i + 1..]);
            multiset(t) == multiset(s) && SameAssertions(s, t)
  {
    var t := [s[i]] + (s[..i] + s[i + 1..]);
    assert s == s[..i] + [s[i]] + s[i + 1..];
    assert forall a :: a in s <==> a in multiset(s);
    assert forall a :: a in t <==> a in multiset(t);
  }

  // ---- when an entity wavers --------------------------------------------------------------------------------------

  lemma {:induction false} ListedFirst(a: Assertion, s: seq<Assertion>, e: Bytes)
    requires Holders.Holds(a, e)
    ensures |Distinct([a] + s, e)| > 0 && Distinct([a] + s, e)[0] == a.issuer
  {
    var t := [a] + s;
    if |s| == 0 {
      assert t[..0] == [];
    } else {
      ListedFirst(a, s[..|s| - 1], e);
      assert t[..|t| - 1] == [a] + s[..|s| - 1];
    }
  }

  lemma {:induction false} ListedPrefix(s: seq<Assertion>, t: seq<Assertion>, e: Bytes)
    ensures Distinct(s, e) <= Distinct(s + t, e)
  {
    if |t| == 0 {
      assert s + t == s;
    } else {
      var n := |t| - 1;
      ListedPrefix(s, t[..n], e);
      assert (s + t)[..|s + t| - 1] == s + t[..n];
    }
  }

  predicate OwnHolding(a: Assertion, self: Bytes, e: Bytes) {
    Holders.Holds(a, e) && a.issuer == self
  }

  /** The assertions that are, or are not, this host's holding of the entity. */
  function Part(s: seq<Assertion>, self: Bytes, e: Bytes, own: bool): (r: seq<Assertion>) {
    if |s| == 0 then []
    else Part(s[..|s| - 1], self, e, own) + if OwnHolding(s[|s| - 1], self, e) == own then [s[|s| - 1]] else []
  }

  lemma PartStep(s: seq<Assertion>, self: Bytes, e: Bytes, own: bool)
    requires |s| > 0
    ensures var n := |s| - 1;
            var before := multiset(Part(s[..n], self, e, own));
            multiset(Part(s, self, e, own)) == if OwnHolding(s[n], self, e) == own then before + multiset{s[n]} else before
  {
    hide OwnHolding;
    var n := |s| - 1;
    assert Part(s[..n], self, e, own) + [] == Part(s[..n], self, e, own);
  }

  lemma {:induction false} PartsMake(s: seq<Assertion>, self: Bytes, e: Bytes)
    ensures multiset(Part(s, self, e, false)) + multiset(Part(s, self, e, true)) == multiset(s)
  {
    hide OwnHolding, Part;
    if |s| == 0 {
      NoParts(self, e);
    } else {
      var n := |s| - 1;
      PartsMake(s[..n], self, e);
      PartStep(s, self, e, false);
      PartStep(s, self, e, true);
      assert s == s[..n] + [s[n]];
    }
  }

  lemma NoParts(self: Bytes, e: Bytes)
    ensures Part([], self, e, false) == Part([], self, e, true) == []
  {
  }

  lemma {:induction false} OthersHold(s: seq<Assertion>, self: Bytes, e: Bytes)
    ensures HoldersOf(Part(s, self, e, false), e) == HoldersOf(s, e) - {self}
  {
    if |s| > 0 {
      var n := |s| - 1;
      OthersHold(s[..n], self, e);
      HoldersStep(s[..n], s[n], e);
      HoldersStep(Part(s[..n], self, e, false), s[n], e);
      assert s == s[..n] + [s[n]];
      assert Part(s[..n], self, e, false) + [] == Part(s[..n], self, e, false);
    }
  }

  /** With this host's own holdings last, its name is not among the first. */
  lemma OwnLast(s: seq<Assertion>, policy: Policy, e: Id32) returns (t: seq<Assertion>)
    requires Wavers(s, policy, e)
    ensures multiset(t) == multiset(s) && SameAssertions(s, t) && FateOf(t, policy, e) == Incomplete
  {
    hide Distinct, HoldersOf, Part, SameAssertions, FactsOf;
    var self := policy.self;
    var others, own := Part(s, self, e, false), Part(s, self, e, true);
    t := others + own;
    PartsMake(s, self, e);
    SameMultiset(s, t);
    SameHolders(s, t, e);
    OthersHold(s, self, e);
    var h := HoldersOf(s, e);
    assert h == (h - {self}) + {self};
    NotListed(others, own, e, self);
  }

  /** Enough other holders met first leave this host off the list. */
  lemma NotListed(others: seq<Assertion>, own: seq<Assertion>, e: Bytes, self: Bytes)
    requires self !in HoldersOf(others, e) && |HoldersOf(others, e)| >= HOLDER_SCRATCH
    requires |HoldersOf(others + own, e)| > HOLDER_SCRATCH
    ensures FactsOf(others + own, e, self).None?
  {
    hide Distinct, HoldersOf;
    DistinctCount(others, e);
    DistinctCount(others + own, e);
    ListedPrefix(others, own, e);
    var d, f := Distinct(others + own, e), Distinct(others, e);
    assert d[..HOLDER_SCRATCH] == f[..HOLDER_SCRATCH];
    assert forall x :: x in f[..HOLDER_SCRATCH] ==> x in f;
  }

  lemma SameMultiset(s: seq<Assertion>, t: seq<Assertion>)
    requires multiset(s) == multiset(t)
    ensures SameAssertions(s, t)
  {
    assert forall a :: a in s <==> a in multiset(s);
    assert forall a :: a in t <==> a in multiset(t);
  }

  /** With one of them first, it is, and the entity is planned. */
  lemma OwnFirst(s: seq<Assertion>, policy: Policy, e: Id32) returns (t: seq<Assertion>)
    requires Wavers(s, policy, e) && policy.capacity > 0
    ensures multiset(t) == multiset(s) && e in Decided(t, policy, Population(t)).rows
  {
    var i :| 0 <= i < |s| && Holders.Holds(s[i], e) && s[i].issuer == policy.self;
    var rest := s[..i] + s[i + 1..];
    t := [s[i]] + rest;
    Fronted(s, i);
    SameHolders(s, t, e);
    ListedFirst(s[i], rest, e);
    ComesFirst(s[i], rest);
    hide Distinct, HoldersOf, Population, Decided, SameAssertions;
    RemovableIff(t, policy, e);
    var d := Distinct(t, e);
    assert d[..Least(HOLDER_SCRATCH, |d|)][0] == policy.self;
    FirstIsPlanned(t, policy, Population(t));
  }

  // ---- exactly when arrival order shows ------------------------------------------------------------------------------

  ghost predicate SameForAll(s: seq<Assertion>, policy: Policy) {
    forall t :: multiset(t) == multiset(s) ==> Decided(t, policy, Population(t)).rows == Decided(s, policy, Population(s)).rows
  }

  /** A wavering entity is planned in one order and not in another, whatever the room. */
  lemma WaveringShows(s: seq<Assertion>, policy: Policy, e: Id32)
    requires Wavers(s, policy, e) && policy.capacity > 0
    ensures !SameForAll(s, policy)
  {
    hide Wavers, Population, Decided, FateOf, SameAssertions;
    var t := OwnFirst(s, policy, e);
    var u := OwnLast(s, policy, e);
    PopulationIs(u);
    RowsAre(u, policy, Population(u));
    assert e !in Decided(u, policy, Population(u)).rows;
  }

  /** `n` hosts, each asserting once that it holds the entity. */
  function Crowd(e: Id32, n: nat): (s: seq<Assertion>)
    requires n <= 256
  {
    seq(n, i requires 0 <= i < n => Assertion(e, [i], true, Holder))
  }

  lemma CrowdStep(e: Id32, n: nat)
    requires n < 256
    ensures HoldersOf(Crowd(e, 0), e) == {}
    ensures HoldersOf(Crowd(e, n + 1), e) == HoldersOf(Crowd(e, n), e) + {[n]}
  {
    HoldersStep(Crowd(e, n), Assertion(e, [n], true, Holder), e);
    assert Crowd(e, n + 1) == Crowd(e, n) + [Assertion(e, [n], true, Holder)];
  }

  lemma {:induction false} CrowdHolds(e: Id32, n: nat)
    requires n <= 256
    ensures |HoldersOf(Crowd(e, n), e)| == n && (n > 0 ==> [0] in HoldersOf(Crowd(e, n), e))
    ensures forall x :: x in HoldersOf(Crowd(e, n), e) ==> |x| == 1 && x[0] < n
  {
    hide HoldersOf, Crowd;
    if n == 0 {
      CrowdStep(e, 0);
    } else {
      CrowdHolds(e, n - 1);
      CrowdStep(e, n - 1);
      var h, last: Bytes := HoldersOf(Crowd(e, n - 1), e), [n - 1];
      assert last[0] == n - 1 && last !in h;
      assert |h + {last}| == |h| + 1;
    }
  }

  /** Seventeen holders or more, one of them this host: in one order it plans to drop the entity and in another it does not. */
  lemma CrowdShows(e: Id32, n: nat, policy: Policy)
    requires HOLDER_SCRATCH < n <= 256 && policy.self == [0] && !policy.keeps(e) && policy.minOthers < n && policy.capacity > 0
    ensures !SameForAll(Crowd(e, n), policy)
  {
    hide SameForAll, HoldersOf;
    CrowdHolds(e, n);
    WaveringShows(Crowd(e, n), policy, e);
  }

  /** Every order of the same assertions plans the same rows if and only if no entity wavers and there is room for all that may
      be removed. */
  lemma SamePlanIff(s: seq<Assertion>, policy: Policy)
    requires policy.capacity > 0
    ensures SameForAll(s, policy) <==>
            (forall e: Id32 :: !Wavers(s, policy, e)) && |Removables(s, policy, Population(s))| <= policy.capacity
  {
    hide Wavers, Population, Decided, FateOf, SameAssertions;
    if e: Id32 :| Wavers(s, policy, e) {
      WaveringShows(s, policy, e);
    } else if |Removables(s, policy, Population(s))| <= policy.capacity {
      forall t | multiset(t) == multiset(s)
        ensures Decided(t, policy, Population(t)).rows == Decided(s, policy, Population(s)).rows
      {
        SameMultiset(s, t);
        SamePlan(s, t, policy);
      }
    } else {
      var e := LeftOut(s, policy);
      PopulationIs(s);
      var i :| 0 <= i < |s| && s[i].entity == e;
      var t := [s[i]] + (s[..i] + s[i + 1..]);
      Fronted(s, i);
      ComesFirst(s[i], s[..i] + s[i + 1..]);
      SameFate(s, t, policy, e);
      FirstIsPlanned(t, policy, Population(t));
      assert multiset(t) == multiset(s) && e in Decided(t, policy, Population(t)).rows;
    }
  }
}
