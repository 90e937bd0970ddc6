/** Planning which entities this host may stop holding, catalog/sweep.c. */
module Sweep {
  import opened Collections
  import opened ByteOrder
  import opened Holders

  const HOLDER_SCRATCH: nat := 16

  /** Whether this host holds an entity, and how many others do. */
  datatype Facts = Facts(mine: bool, others: nat)

  /** What becomes of an entity. */
  datatype Fate = Retained | Incomplete | Absent | LastCopy | Removable

  /** Which host plans, what it keeps, and how many others must hold what it drops. */
  datatype Policy = Policy(self: Bytes, keeps: Bytes -> bool, minOthers: nat, capacity: nat)

  /** The job so far: the counters and the sorted rows. */
  datatype Tally = Tally(retained: nat, incomplete: nat, absent: nat, lastCopy: nat, truncated: nat, rows: seq<Id32>)

  const NOTHING := Tally(0, 0, 0, 0, 0, [])

  // ---- the facts ----------------------------------------------------------------------------------

  /** The facts as they can be known: not when this host is not among the first holders and more did not fit. */
  ghost function FactsOf(s: seq<Assertion>, entity: Bytes, self: Bytes): (f: Option<Facts>) {
    var d := Distinct(s, entity);
    var mine := self in d[..Least(HOLDER_SCRATCH, |d|)];
    if !mine && |d| > HOLDER_SCRATCH then None else Some(Facts(mine, |d| - if mine then 1 else 0))
  }

  /** What is answered is so: whether this host holds the entity, and exactly how many others do. It is answered whenever the
      holders fit. */
  lemma FactsHonest(s: seq<Assertion>, entity: Bytes, self: Bytes)
    ensures var f := FactsOf(s, entity, self);
            var h := HoldersOf(s, entity);
            && (f.Some? ==> f.value.mine == (self in h) && f.value.others == |h - {self}|)
            && (|h| <= HOLDER_SCRATCH ==> f.Some?)
            && (f.None? ==> |h| > HOLDER_SCRATCH)
  {
    DistinctCount(s, entity);
    var d, h := Distinct(s, entity), HoldersOf(s, entity);
    if |d| <= HOLDER_SCRATCH {
      assert d[..|d|] == d;
    }
    if self in h {
      assert h == (h - {self}) + {self};
    } else {
      assert h - {self} == h;
    }
  }

  method HolderFacts(s: seq<Assertion>, entity: Bytes, self: Bytes) returns (f: Option<Facts>)
    ensures f == FactsOf(s, entity, self)
  {
    var who := new Listed[HOLDER_SCRATCH](_ => Listed([], 0));
    var written, dropped := ListHolders(s, entity, who);
    ghost var first := Distinct(s, entity)[..written];
    var mine := false;
    for i := 0 to written
      invariant mine <==> self in first[..i]
    {
      assert first[..i + 1] == first[..i] + [who[i].issuer];
      if who[i].issuer == self {
        mine := true;
      }
    }
    assert first[..written] == first;
    if !mine && dropped > 0 {
      return None;
    }
    f := Some(Facts(mine, written + dropped - if mine then 1 else 0));
  }

  // ---- the population -------------------------------------------------------------------------------

  /** The distinct 32-byte entities of the assertions, in the order they are first met. */
  function Population(s: seq<Assertion>): (p: seq<Id32>) {
    if |s| == 0 then []
    else
      var e, before := s[|s| - 1].entity, Population(s[..|s| - 1]);
      if |e| == ID_LEN && e !in before then before + [e] else before
  }

  lemma {:induction false} PopulationIs(s: seq<Assertion>)
    ensures forall e: Id32 :: e in Population(s) <==> exists i :: 0 <= i < |s| && s[i].entity == e
    ensures forall i, j :: 0 <= i < j < |Population(s)| ==> Population(s)[i] != Population(s)[j]
  {
    if |s| > 0 {
      var n := |s| - 1;
      PopulationIs(s[..n]);
      assert forall i :: 0 <= i < n ==> s[..n][i] == s[i];
      var e := s[n].entity;
      assert 0 <= n < |s| && s[n].entity == e;
    }
  }

  method AlreadySeen(s: seq<Assertion>, n: nat, entity: Id32) returns (yes: bool)
    requires n <= |s|
    ensures yes <==> entity in Population(s[..n])
  {
    PopulationIs(s[..n]);
    for i := 0 to n
      invariant forall j :: 0 <= j < i ==> s[j].entity != entity
    {
      if s[i].entity == entity {
        assert s[..n][i] == s[i];
        return true;
      }
    }
    yes := false;
  }

  // ---- the plan ---------------------------------------------------------------------------------------

  ghost function FateOf(s: seq<Assertion>, policy: Policy, entity: Id32): (fate: Fate) {
    if policy.keeps(entity) then Retained
    else match FactsOf(s, entity, policy.self)
      case None => Incomplete
      case Some(f) =>
        if !f.mine then Absent
        else if policy.minOthers > 0 && f.others < policy.minOthers then LastCopy
        else Removable
  }

  /** One entity is decided. */
  function Decide(t: Tally, fate: Fate, entity: Id32, capacity: nat): (r: Tally) {
    match fate
    case Retained => t.(retained := t.retained + 1)
    case Incomplete => t.(incomplete := t.incomplete + 1)
    case Absent => t.(absent := t.absent + 1)
    case LastCopy => t.(lastCopy := t.lastCopy + 1)
    case Removable => if |t.rows| >= capacity then t.(truncated := t.truncated + 1) else t.(rows := Inserted(t.rows, entity))
  }

  /** The entities of `p` decided in order. */
  ghost function Decided(s: seq<Assertion>, policy: Policy, p: seq<Id32>): (t: Tally) {
    if |p| == 0 then NOTHING
    else Decide(Decided(s, policy, p[..|p| - 1]), FateOf(s, policy, p[|p| - 1]), p[|p| - 1], policy.capacity)
  }

  /** The job's rows, in place. */
  class Job {
    const removals: array<Id32>
    var used: nat

    constructor (capacity: nat)
      ensures used == 0 && removals.Length == capacity && fresh(removals)
    {
      removals, used := new Id32[capacity](_ => seq(ID_LEN, _ => 0)), 0;
    }

    ghost predicate Holds(rows: seq<Id32>)
      reads this, removals
    {
      used <= removals.Length && removals[..used] == rows
    }

    method InsertSorted(row: Id32)
      requires used < removals.Length
      modifies this`used, removals
      ensures Holds(Inserted(old(removals[..used]), row))
    {
      hide Inserted, Before;
      ghost var was := removals[..used];
      var at := used;
      while at > 0 && Before(row, removals[at - 1])
        invariant 0 <= at <= used == old(used)
        invariant forall k :: 0 <= k < at ==> removals[k] == was[k]
        invariant forall k :: at < k <= used ==> removals[k] == was[k - 1]
        invariant forall k :: at <= k < used ==> Before(row, was[k])
      {
        removals[at] := removals[at - 1];
        at := at - 1;
      }
      InsertedAt(was, at, row);
      removals[at] := row;
      used := used + 1;
      PutIn(was, removals[..used], at, row);
    }

    /** Plans from the assertions; `None` is a malformed call. */
    method Capture(s: seq<Assertion>, policy: Policy) returns (r: Option<Tally>)
      requires policy.capacity == removals.Length
      modifies this`used, removals
      ensures r == if |policy.self| == 0 || policy.capacity == 0 then None else Some(Decided(s, policy, Population(s)))
      ensures if r.Some? then Holds(r.value.rows) else used == old(used) && removals[..] == old(removals[..])
    {
      if |policy.self| == 0 || removals.Length == 0 {
        return None;
      }
      used := 0;
      var t := NOTHING;
      for i := 0 to |s|
        invariant t == Decided(s, policy, Population(s[..i])) && Holds(t.rows)
      {
        t := CaptureOne(s, i, policy, t);
      }
      assert s[..|s|] == s;
      r := Some(t);
    }

    method CaptureOne(s: seq<Assertion>, i: nat, policy: Policy, t0: Tally) returns (t: Tally)
      requires i < |s| && policy.capacity == removals.Length
      requires t0 == Decided(s, policy, Population(s[..i])) && Holds(t0.rows)
      modifies this`used, removals
      ensures t == Decided(s, policy, Population(s[..i + 1])) && Holds(t.rows)
    {
      hide Population, Decided, FateOf, Inserted;
      t := t0;
      var entity := s[i].entity;
      PopulationStep(s, i);
      if |entity| != ID_LEN {
        return;
      }
      var seen := AlreadySeen(s, i, entity);
      if seen {
        return;
      }
      DecidedStep(s, policy, Population(s[..i]), entity);
      var fate := Weigh(s, entity, policy);
      match fate
      case Retained => t := t.(retained := t.retained + 1);
      case Incomplete => t := t.(incomplete := t.incomplete + 1);
      case Absent => t := t.(absent := t.absent + 1);
      case LastCopy => t := t.(lastCopy := t.lastCopy + 1);
      case Removable =>
        if used >= removals.Length {
          t := t.(truncated := t.truncated + 1);
        } else {
          InsertSorted(entity);
          t := t.(rows := Inserted(t.rows, entity));
        }
    }
  }

  lemma PutIn(was: seq<Id32>, now: seq<Id32>, at: nat, row: Id32)
    requires at <= |was| && |now| == |was| + 1 && now[at] == row
    requires forall k :: 0 <= k < at ==> now[k] == was[k]
    requires forall k :: at < k < |now| ==> now[k] == was[k - 1]
    ensures now == was[..at] + [row] + was[at..]
  {
  }

  method Weigh(s: seq<Assertion>, entity: Id32, policy: Policy) returns (fate: Fate)
    ensures fate == FateOf(s, policy, entity)
  {
    hide FactsOf;
    if policy.keeps(entity) {
      return Retained;
    }
    var facts := HolderFacts(s, entity, policy.self);
    if facts.None? {
      return Incomplete;
    }
    if !facts.value.mine {
      return Absent;
    }
    if policy.minOthers > 0 && facts.value.others < policy.minOthers {
      return LastCopy;
    }
    fate := Removable;
  }

  lemma PopulationStep(s: seq<Assertion>, i: nat)
    requires i < |s|
    ensures var e, before := s[i].entity, Population(s[..i]);
            Population(s[..i + 1]) == if |e| == ID_LEN && e !in before then before + [e] else before
  {
    assert s[..i + 1][..i] == s[..i];
  }

  lemma DecidedStep(s: seq<Assertion>, policy: Policy, p: seq<Id32>, e: Id32)
    ensures Decided(s, policy, p + [e]) == Decide(Decided(s, policy, p), FateOf(s, policy, e), e, policy.capacity)
  {
    hide FateOf, Decide;
    assert (p + [e])[..|p|] == p;
  }

  // ---- what a plan is ------------------------------------------------------------------------------------

  ghost function WithFate(s: seq<Assertion>, policy: Policy, p: seq<Id32>, fate: Fate): (n: nat) {
    if |p| == 0 then 0
    else WithFate(s, policy, p[..|p| - 1], fate) + if FateOf(s, policy, p[|p| - 1]) == fate then 1 else 0
  }

  /** The six counters partition the population, each counting exactly the entities of its fate. */
  lemma {:induction false} Partition(s: seq<Assertion>, policy: Policy, p: seq<Id32>)
    ensures var t := Decided(s, policy, p);
            && t.retained == WithFate(s, policy, p, Retained) && t.incomplete == WithFate(s, policy, p, Incomplete)
            && t.absent == WithFate(s, policy, p, Absent) && t.lastCopy == WithFate(s, policy, p, LastCopy)
            && t.truncated + |t.rows| == WithFate(s, policy, p, Removable)
            && t.retained + t.incomplete + t.absent + t.lastCopy + t.truncated + |t.rows| == |p|
            && |t.rows| <= policy.capacity && (t.truncated > 0 ==> |t.rows| == policy.capacity)
  {
    hide FateOf;
    if |p| > 0 {
      Partition(s, policy, p[..|p| - 1]);
    }
  }

  /** The rows are strictly sorted; every row is a removable entity of `p`, and all of those are rows if none was cut off. */
  lemma {:induction false} RowsAre(s: seq<Assertion>, policy: Policy, p: seq<Id32>)
    requires forall i, j :: 0 <= i < j < |p| ==> p[i] != p[j]
    ensures RowsOk(s, policy, p, Decided(s, policy, p))
  {
    hide RowsOk, FateOf, Decide;
    if |p| == 0 {
      NoRows(s, policy);
    } else {
      var n := |p| - 1;
      RowsAre(s, policy, p[..n]);
      assert p[n] !in p[..n];
      RowsStep(s, policy, p[..n], p[n], Decided(s, policy, p[..n]));
      assert p == p[..n] + [p[n]];
    }
  }

  ghost predicate RowsOk(s: seq<Assertion>, policy: Policy, p: seq<Id32>, t: Tally) {
    && Ascending(t.rows)
    && (forall e :: e in t.rows ==> e in p && FateOf(s, policy, e) == Removable)
    && (t.truncated == 0 ==> forall e :: e in p && FateOf(s, policy, e) == Removable ==> e in t.rows)
  }

  lemma RowsStep(s: seq<Assertion>, policy: Policy, p: seq<Id32>, e: Id32, t: Tally)
    requires RowsOk(s, policy, p, t) && e !in p
    ensures RowsOk(s, policy, p + [e], Decide(t, FateOf(s, policy, e), e, policy.capacity))
  {
    hide FateOf, Ascending, Inserted;
    InsertedMembers(t.rows, e);
    InsertedAscends(t.rows, e);
  }

  lemma NoRows(s: seq<Assertion>, policy: Policy)
    ensures RowsOk(s, policy, [], NOTHING)
  {
  }

  /** Last-copy safety: every planned removal is an entity this host holds live and does not keep, and at least `minOthers`
      other hosts hold it live. */
  lemma LastCopySafe(s: seq<Assertion>, policy: Policy, e: Id32)
    requires e in Decided(s, policy, Population(s)).rows
    ensures policy.self in HoldersOf(s, e) && !policy.keeps(e) && |HoldersOf(s, e) - {policy.self}| >= policy.minOthers
  {
    PopulationIs(s);
    RowsAre(s, policy, Population(s));
    FactsHonest(s, e, policy.self);
    hide Decided, FactsOf, Population;
    assert FateOf(s, policy, e) == Removable;
  }

  /** The assertions left when this host drops every row of the plan. */
  function Dropped(s: seq<Assertion>, self: Bytes, rows: seq<Id32>): (r: seq<Assertion>) {
    if |s| == 0 then []
    else
      var a, before := s[|s| - 1], Dropped(s[..|s| - 1], self, rows);
      if a.issuer == self && a.entity in rows then before else before + [a]
  }

  lemma {:induction false} DroppedHolders(s: seq<Assertion>, self: Bytes, rows: seq<Id32>, e: Id32)
    ensures HoldersOf(Dropped(s, self, rows), e) == if e in rows then HoldersOf(s, e) - {self} else HoldersOf(s, e)
  {
    if |s| > 0 {
      var n := |s| - 1;
      DroppedHolders(s[..n], self, rows, e);
      HoldersStep(s[..n], s[n], e);
      HoldersStep(Dropped(s[..n], self, rows), s[n], e);
      assert s == s[..n] + [s[n]];
    }
  }

  lemma HoldersStep(s: seq<Assertion>, a: Assertion, e: Bytes)
    ensures HoldersOf(s + [a], e) == HoldersOf(s, e) + if Holders.Holds(a, e) then {a.issuer} else {}
  {
    var t := s + [a];
    forall x
      ensures x in HoldersOf(t, e) <==> x in HoldersOf(s, e) || (Holders.Holds(a, e) && x == a.issuer)
    {
      if x in HoldersOf(s, e) {
        var i :| 0 <= i < |s| && Holders.Holds(s[i], e) && s[i].issuer == x;
        assert t[i] == s[i];
      }
      if Holders.Holds(a, e) && x == a.issuer {
        assert t[|s|] == a;
      }
    }
  }

  /** The whole plan carried out leaves every planned entity with its `minOthers` holders, and every other as it was. */
  lemma PlanLeavesCopies(s: seq<Assertion>, policy: Policy, e: Id32)
    ensures var rows := Decided(s, policy, Population(s)).rows;
            var left := HoldersOf(Dropped(s, policy.self, rows), e);
            if e in rows then |left| >= policy.minOthers && left == HoldersOf(s, e) - {policy.self} else left == HoldersOf(s, e)
  {
    hide Decided, Population, HoldersOf, Dropped;
    var rows := Decided(s, policy, Population(s)).rows;
    DroppedHolders(s, policy.self, rows, e);
    if e in rows {
      LastCopySafe(s, policy, e);
    }
  }

  // ---- the fates, over the holders --------------------------------------------------------------------

  /** What becomes of an entity, said over who holds it live: kept; too many holders to say; not held here; held by too few others;
      or removable. With no more holders than the list takes, the fate is exact. */
  lemma FateMeans(s: seq<Assertion>, policy: Policy, e: Id32)
    ensures var fate, h := FateOf(s, policy, e), HoldersOf(s, e);
            var here, others := policy.self in h, |h - {policy.self}|;
            && (fate == Retained <==> policy.keeps(e))
            && (fate == Incomplete ==> !policy.keeps(e) && |h| > 16)
            && (fate == Absent ==> !policy.keeps(e) && !here)
            && (fate == LastCopy ==> !policy.keeps(e) && here && others < policy.minOthers)
            && (fate == Removable ==> !policy.keeps(e) && here && others >= policy.minOthers)
            && (!policy.keeps(e) && |h| <= 16 ==>
                  fate == if !here then Absent else if others < policy.minOthers then LastCopy else Removable)
            && (!policy.keeps(e) && |h| > 16 && !here ==> fate == Incomplete)
  {
    hide HoldersOf;
    FactsHonest(s, e, policy.self);
    if policy.self !in HoldersOf(s, e) && |HoldersOf(s, e)| > 16 {
      UnlistedUnknown(s, e, policy.self);
    }
  }

  lemma UnlistedUnknown(s: seq<Assertion>, e: Bytes, self: Bytes)
    requires self !in HoldersOf(s, e) && |HoldersOf(s, e)| > 16
    ensures FactsOf(s, e, self) == None
  {
    hide HoldersOf;
    DistinctCount(s, e);
    var d := Distinct(s, e);
    assert forall x :: x in d[..HOLDER_SCRATCH] ==> x in d;
  }
}
