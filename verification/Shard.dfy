/** Cutting a register into shards and routing a key to one, catalog/shard.c. */
module Shard {
  import opened ByteOrder

  datatype Result = Ok | Malformed | Range | Absent

  /** One shard: the first key of its range and how many entries it holds. */
  datatype Shard = Shard(first: Id32, entries: nat)

  // ---- the plan ---------------------------------------------------------------------------

  function ShardCount(n: nat, floor: nat): (c: nat)
    requires floor > 0
    ensures n > 0 ==> c > 0 && (c - 1) * floor < n
    ensures n >= floor ==> c * floor <= n < (c + 1) * floor
    ensures n < floor ==> c <= 1
  {
    if n == 0 then 0
    else
      var c := if n / floor == 0 then 1 else n / floor;
      CountBounds(n, floor, c);
      c
  }

  lemma CountBounds(n: nat, floor: nat, c: nat)
    requires floor > 0 && n > 0 && c == if n / floor == 0 then 1 else n / floor
    ensures c > 0 && (c - 1) * floor < n && (n >= floor ==> c * floor <= n < (c + 1) * floor) && (n < floor ==> c == 1)
  {
    Division(n, floor);
    if n / floor == 0 {
      assert (c - 1) * floor == 0;
    } else {
      Ordered(1, c, floor);
    }
  }

  lemma Division(n: nat, floor: nat)
    requires floor > 0
    ensures var q := n / floor; q * floor <= n < (q + 1) * floor && (q - 1) * floor == q * floor - floor
  {
  }

  /** Where shard `i` starts, and the position after its last entry. */
  function Start(i: nat, floor: nat): (at: nat) { i * floor }

  function End(n: nat, floor: nat, i: nat): (at: nat)
    requires floor > 0
  {
    if i + 1 == ShardCount(n, floor) then n else Start(i + 1, floor)
  }

  lemma StartsInside(n: nat, floor: nat, i: nat)
    requires floor > 0 && i < ShardCount(n, floor)
    ensures Start(i, floor) < End(n, floor, i) <= n
    ensures i + 1 < ShardCount(n, floor) ==> Start(i + 1, floor) == Start(i, floor) + floor < n
  {
    var c := ShardCount(n, floor);
    Ordered(i, c - 1, floor);
    if i + 1 < c {
      Ordered(i + 1, c - 1, floor);
    }
  }

  lemma StartsAtZero(floor: nat)
    ensures Start(0, floor) == 0
  {
  }

  lemma Ordered(a: nat, b: nat, floor: nat)
    requires a <= b
    ensures a * floor <= b * floor && (a + 1) * floor == a * floor + floor
  {
  }

  /** The plan: shard `i` holds the keys from its start to its end. */
  function PlanOf(keys: seq<Id32>, floor: nat): (plan: seq<Shard>)
    requires floor > 0
    ensures |plan| == ShardCount(|keys|, floor)
  {
    seq(ShardCount(|keys|, floor), i requires 0 <= i < ShardCount(|keys|, floor) =>
      StartsInside(|keys|, floor, i);
      Shard(keys[Start(i, floor)], End(|keys|, floor, i) - Start(i, floor)))
  }

  method IsSorted(keys: seq<Id32>) returns (yes: bool)
    ensures yes == NeverFalls(keys)
  {
    var i := 1;
    while i < |keys|
      invariant i >= 1 && forall j :: 0 < j < i && j < |keys| ==> !Before(keys[j], keys[j - 1])
    {
      if Before(keys[i], keys[i - 1]) {
        return false;
      }
      i := i + 1;
    }
    yes := true;
  }

  /** Plans into `out`, whose length is what it can hold. */
  method MakePlan(keys: seq<Id32>, floor: nat, out: array<Shard>) returns (r: Result, count: nat)
    modifies out
    ensures r == if floor == 0 || !NeverFalls(keys) then Malformed
                 else if ShardCount(|keys|, floor) > out.Length then Range else Ok
    ensures r == Ok ==> count <= out.Length && out[..count] == PlanOf(keys, floor) && out[count..] == old(out[..])[count..]
    ensures r != Ok ==> count == 0 && out[..] == old(out[..])
  {
    count := 0;
    if floor == 0 {
      return Malformed, 0;
    }
    var sorted := IsSorted(keys);
    if !sorted {
      return Malformed, 0;
    }
    if |keys| == 0 {
      return Ok, 0;
    }
    var shards := |keys| / floor;
    if shards == 0 {
      shards := 1;
    }
    if shards > out.Length {
      return Range, 0;
    }
    Fill(keys, floor, out);
    return Ok, shards;
  }

  /** Fills the plan in, shard by shard, the remainder going to the last. */
  method Fill(keys: seq<Id32>, floor: nat, out: array<Shard>)
    requires floor > 0 && 0 < ShardCount(|keys|, floor) <= out.Length
    modifies out
    ensures var count := ShardCount(|keys|, floor);
            out[..count] == PlanOf(keys, floor) && out[count..] == old(out[..])[count..]
  {
    hide ShardCount, Start;
    var shards, at := ShardCount(|keys|, floor), 0;
    assert Start(0, floor) == 0 by { StartsAtZero(floor); }
    for i := 0 to shards
      invariant at == if i == shards then |keys| else Start(i, floor)
      invariant forall j :: 0 <= j < i ==> out[j] == PlanOf(keys, floor)[j]
      invariant forall j :: i <= j < out.Length ==> out[j] == old(out[j])
    {
      StartsInside(|keys|, floor, i);
      var entries := if i + 1 == shards then |keys| - at else floor;
      out[i] := Shard(keys[at], entries);
      at := at + entries;
    }
  }

  // ---- what the plan conserves ----------------------------------------------------------------

  function Held(plan: seq<Shard>): (n: nat) {
    if |plan| == 0 then 0 else Held(plan[..|plan| - 1]) + plan[|plan| - 1].entries
  }

  /** Every entry is in exactly one shard: the first `i` shards hold the entries up to where shard `i` starts. */
  lemma {:induction false} HeldUpTo(keys: seq<Id32>, floor: nat, i: nat)
    requires floor > 0 && i <= ShardCount(|keys|, floor)
    ensures Held(PlanOf(keys, floor)[..i]) == if i == ShardCount(|keys|, floor) then |keys| else Start(i, floor)
  {
    hide ShardCount;
    var plan := PlanOf(keys, floor);
    if i > 0 {
      HeldUpTo(keys, floor, i - 1);
      StartsInside(|keys|, floor, i - 1);
      assert plan[..i][..i - 1] == plan[..i - 1];
    }
  }

  /** The counts sum to the register, and a register of at least the floor is cut into shards of at least the floor and less
      than twice it; a smaller one is one shard. */
  lemma PlanConserves(keys: seq<Id32>, floor: nat)
    requires floor > 0
    ensures Held(PlanOf(keys, floor)) == |keys|
    ensures |keys| >= floor ==> forall i :: 0 <= i < |PlanOf(keys, floor)| ==> floor <= PlanOf(keys, floor)[i].entries < 2 * floor
    ensures 0 < |keys| < floor ==> PlanOf(keys, floor) == [Shard(keys[0], |keys|)]
  {
    var plan := PlanOf(keys, floor);
    HeldUpTo(keys, floor, |plan|);
    assert plan[..|plan|] == plan;
    forall i | 0 <= i < |plan| && |keys| >= floor
      ensures floor <= plan[i].entries < 2 * floor
    {
      StartsInside(|keys|, floor, i);
      Ordered(i, |plan|, floor);
      Ordered(i + 1, |plan|, floor);
      Ordered(|plan|, |plan|, floor);
    }
  }

  // ---- routing ----------------------------------------------------------------------------------

  function Firsts(plan: seq<Shard>): (s: seq<Id32>)
    ensures |s| == |plan|
  {
    seq(|plan|, i requires 0 <= i < |plan| => plan[i].first)
  }

  /** The last range that starts at or before the key; the first when none does. */
  function Route(firsts: seq<Id32>, key: Id32): (i: nat)
    ensures |firsts| > 0 ==> i < |firsts|
    ensures forall j :: i < j < |firsts| ==> Before(key, firsts[j])
    ensures i > 0 ==> i < |firsts| && !Before(key, firsts[i])
  {
    if |firsts| == 0 then 0
    else
      var n := |firsts| - 1;
      if !Before(key, firsts[n]) then n
      else
        var i := Route(firsts[..n], key);
        assert forall j :: i < j < n ==> firsts[..n][j] == firsts[j];
        i
  }

  method ShardOf(plan: seq<Shard>, key: Id32) returns (r: Result, index: nat)
    ensures r == if |plan| == 0 then Absent else Ok
    ensures index == Route(Firsts(plan), key)
  {
    index := 0;
    if |plan| == 0 {
      return Absent, 0;
    }
    for i := 0 to |plan|
      invariant index == Route(Firsts(plan)[..i], key)
    {
      assert Firsts(plan)[..i + 1][..i] == Firsts(plan)[..i];
      if !Before(key, plan[i].first) {
        index := i;
      }
    }
    assert Firsts(plan)[..|plan|] == Firsts(plan);
    r := Ok;
  }

  /** Routing is pinned down by its neighbours, the starts never falling. */
  lemma RouteUnique(firsts: seq<Id32>, key: Id32, i: nat)
    requires NeverFalls(firsts) && i < |firsts|
    requires i > 0 ==> !Before(key, firsts[i])
    requires i + 1 < |firsts| ==> Before(key, firsts[i + 1])
    ensures Route(firsts, key) == i
  {
    var r := Route(firsts, key);
    if i < r {
      NeverFallsPair(firsts, i + 1, r);
      BeforeNotAfter(key, firsts[i + 1], firsts[r]);
    }
  }

  /** The starts of a plan over keys that never fall, never fall. */
  lemma PlanStarts(keys: seq<Id32>, floor: nat)
    requires floor > 0 && NeverFalls(keys)
    ensures NeverFalls(Firsts(PlanOf(keys, floor)))
  {
    hide Start, ShardCount, Before;
    var plan := PlanOf(keys, floor);
    forall i | 0 < i < |plan|
      ensures !Before(Firsts(plan)[i], Firsts(plan)[i - 1])
    {
      StartsInside(|keys|, floor, i - 1);
      StartsInside(|keys|, floor, i);
      NeverFallsPair(keys, Start(i - 1, floor), Start(i, floor));
    }
  }

  /** The key at position `j` is routed to the shard `i` that holds position `j` exactly when the next shard does not begin with
      that very key: a register that repeats a key over a cut finds only the later copies. */
  lemma RoutesHomeIff(keys: seq<Id32>, floor: nat, i: nat, j: nat)
    requires floor > 0 && NeverFalls(keys) && i < ShardCount(|keys|, floor) && Start(i, floor) <= j < End(|keys|, floor, i)
    ensures End(|keys|, floor, i) <= |keys|
    ensures var plan := PlanOf(keys, floor);
            Route(Firsts(plan), keys[j]) == i <==> i + 1 == |plan| || plan[i + 1].first != keys[j]
  {
    hide Start, ShardCount, Before;
    StartsInside(|keys|, floor, i);
    var plan := PlanOf(keys, floor);
    var firsts, key := Firsts(plan), keys[j];
    PlanStarts(keys, floor);
    NeverFallsPair(keys, Start(i, floor), j);
    if i + 1 < |plan| {
      var next := Start(i + 1, floor);
      StartsInside(|keys|, floor, i + 1);
      assert firsts[i + 1] == keys[next];
      NeverFallsPair(keys, j, next);
      Trichotomy(key, keys[next]);
      Irreflexive(key);
      if key != keys[next] {
        RouteUnique(firsts, key, i);
      }
    } else {
      RouteUnique(firsts, key, i);
    }
  }

  /** Distinct keys are each routed to the shard whose slice holds them. */
  lemma RoutesHome(keys: seq<Id32>, floor: nat, i: nat, j: nat)
    requires floor > 0 && Ascending(keys) && i < ShardCount(|keys|, floor) && Start(i, floor) <= j < End(|keys|, floor, i)
    ensures End(|keys|, floor, i) <= |keys|
    ensures Route(Firsts(PlanOf(keys, floor)), keys[j]) == i
  {
    hide Start, ShardCount, Before;
    forall k | 0 < k < |keys|
      ensures !Before(keys[k], keys[k - 1])
    {
      Asymmetric(keys[k - 1], keys[k]);
    }
    RoutesHomeIff(keys, floor, i, j);
    if i + 1 < ShardCount(|keys|, floor) {
      StartsInside(|keys|, floor, i);
      StartsInside(|keys|, floor, i + 1);
      AscendingPair(keys, j, Start(i + 1, floor));
      Asymmetric(keys[j], keys[Start(i + 1, floor)]);
    }
  }
}
