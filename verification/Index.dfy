/** The index body, catalog/index.c: each shard's first key and blob root, end to end, and the search over those bytes. */
module Index {
  import opened ByteOrder
  import opened Shard

  const ENTRY_LEN: nat := 64
  const SIZE_MAX: nat := 0xFFFF_FFFF_FFFF_FFFF

  // ---- the bytes ------------------------------------------------------------------------------

  /** The body of the given starts and roots. */
  function Body(firsts: seq<Id32>, roots: seq<Id32>): (b: Bytes)
    requires |roots| >= |firsts|
    ensures |b| == |firsts| * ENTRY_LEN
  {
    if |firsts| == 0 then [] else
      var n := |firsts| - 1;
      Body(firsts[..n], roots) + firsts[n] + roots[n]
  }

  /** The start and the root at entry `i` of any bytes. */
  function FirstAt(b: Bytes, i: nat): (k: Id32)
    requires (i + 1) * ENTRY_LEN <= |b|
  {
    b[i * ENTRY_LEN..i * ENTRY_LEN + ID_LEN]
  }

  function RootAt(b: Bytes, i: nat): (k: Id32)
    requires (i + 1) * ENTRY_LEN <= |b|
  {
    b[i * ENTRY_LEN + ID_LEN..(i + 1) * ENTRY_LEN]
  }

  function FirstsOf(b: Bytes): (s: seq<Id32>)
    ensures |s| == |b| / ENTRY_LEN
  {
    seq(|b| / ENTRY_LEN, i requires 0 <= i < |b| / ENTRY_LEN => FirstAt(b, i))
  }

  function RootsOf(b: Bytes): (s: seq<Id32>)
    ensures |s| == |b| / ENTRY_LEN
  {
    seq(|b| / ENTRY_LEN, i requires 0 <= i < |b| / ENTRY_LEN => RootAt(b, i))
  }

  lemma {:induction false} EntryOfBody(firsts: seq<Id32>, roots: seq<Id32>, i: nat)
    requires |roots| >= |firsts| && i < |firsts|
    ensures FirstAt(Body(firsts, roots), i) == firsts[i] && RootAt(Body(firsts, roots), i) == roots[i]
    decreases |firsts|
  {
    var n := |firsts| - 1;
    if i < n {
      var b := Body(firsts[..n], roots);
      EntryOfBody(firsts[..n], roots, i);
      assert FirstAt(b + firsts[n] + roots[n], i) == FirstAt(b, i);
      assert RootAt(b + firsts[n] + roots[n], i) == RootAt(b, i);
    }
  }

  /** Reading back what was written: every start and every root. */
  lemma BodyRoundTrip(firsts: seq<Id32>, roots: seq<Id32>)
    requires |roots| == |firsts|
    ensures FirstsOf(Body(firsts, roots)) == firsts && RootsOf(Body(firsts, roots)) == roots
  {
    forall i | 0 <= i < |firsts|
      ensures FirstAt(Body(firsts, roots), i) == firsts[i] && RootAt(Body(firsts, roots), i) == roots[i]
    {
      EntryOfBody(firsts, roots, i);
    }
  }

  lemma BodyStep(firsts: seq<Id32>, roots: seq<Id32>)
    requires |roots| >= |firsts|
    ensures |firsts| == 0 ==> Body(firsts, roots) == []
    ensures |firsts| > 0 ==>
              var n := |firsts| - 1; Body(firsts, roots) == Body(firsts[..n], roots) + firsts[n] + roots[n]
  {
  }

  lemma LastEntry(b: Bytes, n: nat)
    requires |b| == (n + 1) * ENTRY_LEN
    ensures b == b[..n * ENTRY_LEN] + FirstAt(b, n) + RootAt(b, n)
  {
  }

  /** And writing back what was read, whatever bytes they are. */
  lemma {:induction false} BytesRoundTrip(b: Bytes)
    requires |b| % ENTRY_LEN == 0
    ensures Body(FirstsOf(b), RootsOf(b)) == b
  {
    hide Body, FirstAt, RootAt;
    if |b| == 0 {
      BodyStep([], []);
    } else {
      var n := |b| / ENTRY_LEN - 1;
      var c := b[..n * ENTRY_LEN];
      BytesRoundTrip(c);
      PrefixEntries(b, n);
      BodyIgnoresExtra(FirstsOf(c), RootsOf(c), RootsOf(b));
      BodyStep(FirstsOf(b), RootsOf(b));
      LastEntry(b, n);
    }
  }

  lemma PrefixEntries(b: Bytes, n: nat)
    requires n <= |b| / ENTRY_LEN
    ensures var c := b[..n * ENTRY_LEN];
            FirstsOf(c) == FirstsOf(b)[..n] && RootsOf(c) == RootsOf(b)[..n]
  {
    var c := b[..n * ENTRY_LEN];
    forall i | 0 <= i < n
      ensures FirstAt(c, i) == FirstAt(b, i) && RootAt(c, i) == RootAt(b, i)
    {
      SliceOfPrefix(b, n * ENTRY_LEN, i * ENTRY_LEN, i * ENTRY_LEN + ID_LEN);
      SliceOfPrefix(b, n * ENTRY_LEN, i * ENTRY_LEN + ID_LEN, (i + 1) * ENTRY_LEN);
    }
  }

  lemma SliceOfPrefix(b: Bytes, m: nat, lo: nat, hi: nat)
    requires lo <= hi <= m <= |b|
    ensures b[..m][lo..hi] == b[lo..hi]
  {
  }

  lemma {:induction false} BodyIgnoresExtra(firsts: seq<Id32>, roots: seq<Id32>, more: seq<Id32>)
    requires |firsts| <= |roots| <= |more| && roots == more[..|roots|]
    ensures Body(firsts, roots) == Body(firsts, more)
  {
    if |firsts| > 0 {
      BodyIgnoresExtra(firsts[..|firsts| - 1], roots, more);
    }
  }

  // ---- encoding --------------------------------------------------------------------------------

  method KeysAscend(plan: seq<Shard>) returns (yes: bool)
    ensures yes == Ascending(Firsts(plan))
  {
    var i := 1;
    while i < |plan|
      invariant i >= 1 && forall j :: 0 < j < i && j < |plan| ==> Before(plan[j - 1].first, plan[j].first)
    {
      if !Before(plan[i - 1].first, plan[i].first) {
        assert !Before(Firsts(plan)[i - 1], Firsts(plan)[i]);
        return false;
      }
      i := i + 1;
    }
    yes := true;
  }

  /** Encodes into `out`; a refused call writes nothing. */
  method BodyEncode(plan: seq<Shard>, roots: seq<Id32>, out: array<Octet>) returns (r: Result, len: nat)
    requires |roots| == |plan|
    modifies out
    ensures r == if |plan| == 0 then Malformed
                 else if |plan| > SIZE_MAX / ENTRY_LEN || out.Length < |plan| * ENTRY_LEN then Range
                 else if !Ascending(Firsts(plan)) then Malformed else Ok
    ensures r == Ok ==> len <= out.Length && out[..len] == Body(Firsts(plan), roots) && out[len..] == old(out[..])[len..]
    ensures r != Ok ==> len == 0 && out[..] == old(out[..])
  {
    if |plan| == 0 {
      return Malformed, 0;
    }
    if |plan| > SIZE_MAX / ENTRY_LEN || out.Length < |plan| * ENTRY_LEN {
      return Range, 0;
    }
    var ascending := KeysAscend(plan);
    if !ascending {
      return Malformed, 0;
    }
    hide Ascending;
    var firsts := Firsts(plan);
    for i := 0 to |plan|
      invariant out[..i * ENTRY_LEN] == Body(firsts[..i], roots)
      invariant forall k :: i * ENTRY_LEN <= k < out.Length ==> out[k] == old(out[k])
    {
      assert firsts[..i + 1][..i] == firsts[..i];
      WriteEntry(out, i * ENTRY_LEN, plan[i].first, roots[i]);
    }
    assert firsts[..|plan|] == firsts;
    r, len := Ok, |plan| * ENTRY_LEN;
  }

  method WriteEntry(out: array<Octet>, at: nat, first: Id32, root: Id32)
    requires at + ENTRY_LEN <= out.Length
    modifies out
    ensures out[..at + ENTRY_LEN] == old(out[..at]) + first + root
    ensures forall k :: at + ENTRY_LEN <= k < out.Length ==> out[k] == old(out[k])
  {
    forall k | 0 <= k < ID_LEN {
      out[at + k] := first[k];
    }
    forall k | 0 <= k < ID_LEN {
      out[at + ID_LEN + k] := root[k];
    }
  }

  /** What a body the receiver accepts looks like. */
  ghost predicate WellFormed(body: Bytes, wanted: nat) {
    && |body| > 0 && |body| % ENTRY_LEN == 0
    && (wanted != 0 ==> |body| / ENTRY_LEN == wanted)
    && Ascending(FirstsOf(body))
  }

  method BodyOk(body: Bytes, wanted: nat) returns (ok: bool)
    ensures ok == WellFormed(body, wanted)
  {
    if |body| == 0 || |body| % ENTRY_LEN != 0 {
      return false;
    }
    var entries := |body| / ENTRY_LEN;
    if wanted != 0 && entries != wanted {
      return false;
    }
    var i := 1;
    while i < entries
      invariant 1 <= i <= entries && forall j :: 0 < j < i ==> Before(FirstsOf(body)[j - 1], FirstsOf(body)[j])
    {
      if !Before(FirstAt(body, i - 1), FirstAt(body, i)) {
        assert !Before(FirstsOf(body)[i - 1], FirstsOf(body)[i]);
        return false;
      }
      i := i + 1;
    }
    ok := true;
  }

  /** The receiver accepts exactly the bodies an encoder can produce: nonempty, of the expected count, starts ascending. */
  lemma AcceptsWhatEncodes(body: Bytes, wanted: nat)
    ensures WellFormed(body, wanted) <==>
            exists firsts: seq<Id32>, roots: seq<Id32> ::
              && 0 < |firsts| == |roots| && (wanted != 0 ==> |firsts| == wanted) && Ascending(firsts)
              && body == Body(firsts, roots)
  {
    hide Body, FirstsOf, RootsOf, Ascending;
    if WellFormed(body, wanted) {
      BytesRoundTrip(body);
      var firsts, roots := FirstsOf(body), RootsOf(body);
      assert body == Body(firsts, roots);
    }
    forall firsts: seq<Id32>, roots: seq<Id32> | |firsts| == |roots| && body == Body(firsts, roots)
      ensures FirstsOf(body) == firsts
    {
      BodyRoundTrip(firsts, roots);
    }
  }

  method EntryAt(body: Bytes, i: nat) returns (r: Result, first: Id32, root: Id32)
    ensures r == if |body| % ENTRY_LEN == 0 && i < |body| / ENTRY_LEN then Ok else Range
    ensures r == Ok ==> first == FirstsOf(body)[i] && root == RootsOf(body)[i]
  {
    if |body| % ENTRY_LEN != 0 || i >= |body| / ENTRY_LEN {
      first, root := seq(ID_LEN, _ => 0), seq(ID_LEN, _ => 0);
      return Range, first, root;
    }
    first, root := FirstAt(body, i), RootAt(body, i);
    r := Ok;
  }

  // ---- lookup -----------------------------------------------------------------------------------

  /** Binary search over the bytes. On a body whose starts ascend it routes as the linear rule does, for every key. */
  method Lookup(body: Bytes, key: Id32) returns (r: Result, index: nat)
    ensures r == if |body| == 0 then Absent else if |body| % ENTRY_LEN != 0 then Range else Ok
    ensures r == Ok ==> index < |body| / ENTRY_LEN
    ensures r == Ok && Ascending(FirstsOf(body)) ==> index == Route(FirstsOf(body), key)
  {
    index := 0;
    if |body| == 0 {
      return Absent, 0;
    }
    if |body| % ENTRY_LEN != 0 {
      return Range, 0;
    }
    var entries := |body| / ENTRY_LEN;
    var lo, hi := 0, entries;
    while lo < hi
      invariant 0 <= lo <= hi <= entries
      invariant lo > 0 ==> !Before(key, FirstsOf(body)[lo - 1])
      invariant hi < entries ==> Before(key, FirstsOf(body)[hi])
    {
      var mid := lo + (hi - lo) / 2;
      if Before(key, FirstAt(body, mid)) {
        hi := mid;
      } else {
        lo := mid + 1;
      }
    }
    r, index := Ok, if lo == 0 then 0 else lo - 1;
    if Ascending(FirstsOf(body)) {
      FoundIsRoute(FirstsOf(body), key, lo);
    }
  }

  lemma FoundIsRoute(firsts: seq<Id32>, key: Id32, lo: nat)
    requires Ascending(firsts) && 0 < |firsts| && lo <= |firsts|
    requires lo > 0 ==> !Before(key, firsts[lo - 1])
    requires lo < |firsts| ==> Before(key, firsts[lo])
    ensures Route(firsts, key) == if lo == 0 then 0 else lo - 1
  {
    forall i | 0 < i < |firsts|
      ensures !Before(firsts[i], firsts[i - 1])
    {
      Asymmetric(firsts[i - 1], firsts[i]);
    }
    if lo == 0 && |firsts| > 1 {
      Transitive(key, firsts[0], firsts[1]);
    }
    RouteUnique(firsts, key, if lo == 0 then 0 else lo - 1);
  }

  /** Routing agreement: a body that encodes a plan is routed, over its bytes and for every key, as the plan is. */
  lemma RoutesAgree(plan: seq<Shard>, roots: seq<Id32>, key: Id32)
    requires |plan| == |roots|
    ensures Route(FirstsOf(Body(Firsts(plan), roots)), key) == Route(Firsts(plan), key)
    ensures WellFormed(Body(Firsts(plan), roots), |plan|) <==> |plan| > 0 && Ascending(Firsts(plan))
  {
    BodyRoundTrip(Firsts(plan), roots);
  }

  /** End to end: plan a register of distinct keys, encode, look a key up in the bytes: the entry found is the one whose
      shard holds the key, and it carries that shard's root. */
  method FindBlob(keys: seq<Id32>, floor: nat, roots: seq<Id32>, body: Bytes, ghost i: nat, ghost j: nat, key: Id32)
    returns (root: Id32)
    requires floor > 0 && Ascending(keys) && |roots| == |PlanOf(keys, floor)| && body == Body(Firsts(PlanOf(keys, floor)), roots)
    requires i < |roots| && Start(i, floor) <= j < End(|keys|, floor, i) <= |keys| && keys[j] == key
    ensures root == roots[i]
  {
    ghost var plan := PlanOf(keys, floor);
    BodyRoundTrip(Firsts(plan), roots);
    RoutesHome(keys, floor, i, j);
    StartsAscend(keys, floor);
    var r, at := Lookup(body, key);
    var s, first, found := EntryAt(body, at);
    root := found;
  }

  lemma StartsAscend(keys: seq<Id32>, floor: nat)
    requires floor > 0 && Ascending(keys)
    ensures Ascending(Firsts(PlanOf(keys, floor)))
  {
    hide Start, ShardCount, Before;
    var plan := PlanOf(keys, floor);
    forall i | 0 < i < |plan|
      ensures Before(Firsts(plan)[i - 1], Firsts(plan)[i])
    {
      StartsInside(|keys|, floor, i - 1);
      StartsInside(|keys|, floor, i);
      AscendingPair(keys, Start(i - 1, floor), Start(i, floor));
    }
  }

  /** The layout: each entry's start and then its root, 64 bytes apart. */
  lemma Layout(firsts: seq<Id32>, roots: seq<Id32>, i: nat)
    requires |roots| == |firsts| && i < |firsts|
    ensures var b := Body(firsts, roots);
            |b| == 64 * |firsts| && b[64 * i..64 * i + 32] == firsts[i] && b[64 * i + 32..64 * i + 64] == roots[i]
  {
    hide Body;
    EntryOfBody(firsts, roots, i);
  }
}
