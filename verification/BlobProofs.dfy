/** The proof builders and verifiers of blob/blob.c, for single leaves and for spans. */
module BlobProofs {
  import opened Collections
  import opened Hashing
  import opened MerkleTree
  import opened Spans
  import TreeBuilder

  /** A provider's answer for the subtree over `[lo, lo + n)`. */
  datatype Fetched = NotFetched | Fetched(apex: Digest)

  /** Where the siblings come from, if they are wanted: a callback, or the leaf hashes themselves. */
  datatype Provider = NoSiblings | From(subtree: (nat, nat) -> Fetched) | FromArray(hash: HashFn, leaves: seq<Digest>)

  /** The provider answers every range of `leaves` with its tree hash. */
  ghost predicate Honest(subtree: (nat, nat) -> Fetched, h: HashFn, leaves: seq<Digest>) {
    forall lo: nat, n: nat :: 0 < n < |leaves| && lo + n <= |leaves| ==> subtree(lo, n) == Fetched(Apex(h, leaves[lo..lo + n]))
  }

  /** The provider speaks for these leaves. */
  ghost predicate Speaks(provider: Provider, h: HashFn, leaves: seq<Digest>) {
    match provider
    case NoSiblings => false
    case From(subtree) => Honest(subtree, h, leaves)
    case FromArray(hash, hashes) => hash == h && hashes == leaves
  }

  // ---- the descent ------------------------------------------------------------------

  function Followed(path: seq<Side>, rest: Option<seq<Side>>): (r: Option<seq<Side>>) {
    match rest
    case None => None
    case Some(p) => Some(path + p)
  }

  lemma FollowedStep(path: seq<Side>, side: Side, rest: Option<seq<Side>>)
    ensures Followed(path, After(side, rest)) == Followed(path + [side], rest)
  {
    if rest.Some? {
      assert path + ([side] + rest.value) == path + [side] + rest.value;
    }
  }

  lemma WalkCase(n: nat, first: nat, count: nat)
    requires n > 0
    ensures (first, count) == (0, n) ==> Walk(n, first, count) == Some([])
    ensures (first, count) != (0, n) && n == 1 ==> Walk(n, first, count) == None
    ensures (first, count) != (0, n) && n > 1 ==>
              var k := SplitAt(n);
              Walk(n, first, count) ==
                if first + count <= k then After(Left, Walk(k, first, count))
                else if first >= k then After(Right, Walk(n - k, first - k, count)) else None
  {
    hide SplitAt;
  }

  /** The siblings still to come, after those already taken. */
  ghost predicate Collected(h: HashFn, leaves: seq<Digest>, first: nat, count: nat, siblings: seq<Digest>, lo: nat, n: nat) {
    && 0 < n && lo <= first && lo + n <= |leaves|
    && (Walk(n, first - lo, count).Some? ==>
          Walk(|leaves|, first, count).Some? &&
          Siblings(h, leaves, first, count) == siblings + Siblings(h, leaves[lo..lo + n], first - lo, count))
  }

  lemma CollectLeft(h: HashFn, leaves: seq<Digest>, first: nat, count: nat, siblings: seq<Digest>, lo: nat, n: nat)
    requires Collected(h, leaves, first, count, siblings, lo, n)
    requires n > 1 && (first - lo, count) != (0, n) && first + count <= lo + SplitAt(n)
    ensures var k := SplitAt(n);
            Collected(h, leaves, first, count, siblings + [Apex(h, leaves[lo + k..lo + n])], lo, k)
  {
    hide SplitAt, Walk, Apex, Siblings;
    var k, sub := SplitAt(n), leaves[lo..lo + n];
    WalkCase(n, first - lo, count);
    if Walk(k, first - lo, count).Some? {
      SiblingsStep(h, sub, first - lo, count);
      assert sub[..k] == leaves[lo..lo + k] && sub[k..] == leaves[lo + k..lo + n];
      var s := Siblings(h, sub, first - lo, count);
      assert s == [s[0]] + s[1..];
    }
  }

  lemma CollectRight(h: HashFn, leaves: seq<Digest>, first: nat, count: nat, siblings: seq<Digest>, lo: nat, n: nat)
    requires Collected(h, leaves, first, count, siblings, lo, n)
    requires n > 1 && (first - lo, count) != (0, n) && count > 0 && first >= lo + SplitAt(n)
    ensures var k := SplitAt(n);
            Collected(h, leaves, first, count, siblings + [Apex(h, leaves[lo..lo + k])], lo + k, n - k)
  {
    hide SplitAt, Walk, Apex, Siblings;
    var k, sub := SplitAt(n), leaves[lo..lo + n];
    WalkCase(n, first - lo, count);
    if Walk(n - k, first - lo - k, count).Some? {
      SiblingsStep(h, sub, first - lo, count);
      assert sub[..k] == leaves[lo..lo + k] && sub[k..] == leaves[lo + k..lo + n];
      var s := Siblings(h, sub, first - lo, count);
      assert s == [s[0]] + s[1..];
    }
  }

  /** What the walk knows on the way down to `[first, first + count)`. */
  ghost predicate OnTheWay(leafCount: nat, first: nat, count: nat, path: seq<Side>, lo: nat, n: nat) {
    && 0 < n && 0 < count && lo <= first && first + count <= lo + n <= leafCount
    && |path| <= MAX_DEPTH && n <= Pow2(MAX_DEPTH - |path|)
    && Walk(leafCount, first, count) == Followed(path, Walk(n, first - lo, count))
  }

  lemma StepDown(leafCount: nat, first: nat, count: nat, path: seq<Side>, lo: nat, n: nat)
    requires OnTheWay(leafCount, first, count, path, lo, n) && !(lo == first && n == count)
    ensures |path| <= MAX_DEPTH
    ensures n == 1 || |path| == MAX_DEPTH ==> Walk(leafCount, first, count) == None
    ensures n > 1 && first + count <= lo + SplitAt(n) ==> OnTheWay(leafCount, first, count, path + [Left], lo, SplitAt(n))
    ensures n > 1 && first >= lo + SplitAt(n) ==>
              OnTheWay(leafCount, first, count, path + [Right], lo + SplitAt(n), n - SplitAt(n))
    ensures n > 1 && lo + SplitAt(n) < first + count && first < lo + SplitAt(n) ==> Walk(leafCount, first, count) == None
    ensures Walk(leafCount, first, count).Some? ==> |Walk(leafCount, first, count).value| > |path|
  {
    hide SplitAt, Walk;
    assert Pow2(0) == 1;
    hide Pow2;
    WalkCase(n, first - lo, count);
    if n > 1 {
      var k := SplitAt(n);
      SplitHalves(n, MAX_DEPTH - |path|);
      if first + count <= lo + k {
        FollowedStep(path, Left, Walk(k, first - lo, count));
      } else if first >= lo + k {
        FollowedStep(path, Right, Walk(n - k, first - lo - k, count));
      }
    }
  }

  /** Descends to `[first, first + count)`, recording the side taken at each step and, when a provider is given,
      the sibling there. Its verdict on the shape is the tree's: the span is a node, or it is refused. */
  method SpanWalk(provider: Provider, leafCount: nat, first: nat, count: nat, cap: nat, ghost h: HashFn, ghost leaves: seq<Digest>)
    returns (r: Outcome, path: seq<Side>, siblings: seq<Digest>)
    requires 0 < leafCount <= MAX_LEAVES && (provider.FromArray? ==> |provider.leaves| == leafCount)
    ensures count == 0 || first + count > leafCount ==> r == Malformed
    ensures r == Ok ==> 0 < count && first + count <= leafCount && Walk(leafCount, first, count) == Some(path) && |path| <= MAX_DEPTH
    ensures provider.NoSiblings? && 0 < count && first + count <= leafCount ==>
              r == if Walk(leafCount, first, count).Some? then Ok else Shape
    ensures 0 < count && first + count <= leafCount == |leaves| && Speaks(provider, h, leaves) ==>
              && (r == Ok <==> Walk(leafCount, first, count).Some? && 32 * |Walk(leafCount, first, count).value| <= cap)
              && (r == Ok ==> siblings == Siblings(h, leaves, first, count))
  {
    path, siblings := [], [];
    if count == 0 || first + count > leafCount {
      return Malformed, path, siblings;
    }
    hide SplitAt, Walk, Pow2, Apex, Siblings, OnTheWay, Collected, Speaks;
    var lo: nat, n: nat := 0, leafCount;
    WalkStart(leafCount, first, count, h, leaves);
    while !(lo == first && n == count)
      invariant OnTheWay(leafCount, first, count, path, lo, n)
      invariant !provider.NoSiblings? ==> 32 * |path| <= cap
      invariant leafCount == |leaves| && Speaks(provider, h, leaves) ==>
                  Collected(h, leaves, first, count, siblings, lo, n)
      decreases n
    {
      r, lo, n, path, siblings := Descend(provider, leafCount, first, count, cap, lo, n, path, siblings, h, leaves);
      if r != Ok {
        return;
      }
    }
    WalkEnd(leafCount, first, count, path, lo, n, h, leaves, siblings);
    r := Ok;
  }

  /** One step of the walk. A refusal is the tree's, unless siblings are wanted and one does not fit or is not had. */
  method Descend(provider: Provider, leafCount: nat, first: nat, count: nat, cap: nat, lo0: nat, n0: nat,
                 path0: seq<Side>, siblings0: seq<Digest>, ghost h: HashFn, ghost leaves: seq<Digest>)
    returns (r: Outcome, lo: nat, n: nat, path: seq<Side>, siblings: seq<Digest>)
    requires OnTheWay(leafCount, first, count, path0, lo0, n0) && !(lo0 == first && n0 == count)
    requires leafCount <= MAX_LEAVES && (provider.FromArray? ==> |provider.leaves| == leafCount)
    requires leafCount == |leaves| && Speaks(provider, h, leaves) ==>
               Collected(h, leaves, first, count, siblings0, lo0, n0)
    ensures r == Ok ==> n < n0 && OnTheWay(leafCount, first, count, path, lo, n) && (!provider.NoSiblings? ==> 32 * |path| <= cap)
    ensures provider.NoSiblings? && r != Ok ==> r == Shape && Walk(leafCount, first, count) == None
    ensures leafCount == |leaves| && Speaks(provider, h, leaves) ==>
              && (r == Ok ==> Collected(h, leaves, first, count, siblings, lo, n))
              && (r != Ok && Walk(leafCount, first, count).Some? ==> 32 * |Walk(leafCount, first, count).value| > cap)
  {
    hide SplitAt, Walk, Pow2, Apex, Siblings, Collected, Speaks;
    lo, n, path, siblings := lo0, n0, path0, siblings0;
    StepDown(leafCount, first, count, path, lo, n);
    if n <= 1 || |path| >= MAX_DEPTH {
      return Shape, lo, n, path, siblings;
    }
    var k := SplitLoop(n);
    ghost var honest := leafCount == |leaves| && Speaks(provider, h, leaves);
    var taken: seq<Digest>;
    if first + count <= lo + k {
      if honest {
        CollectLeft(h, leaves, first, count, siblings, lo, n);
      }
      r, taken := TakeSibling(provider, lo + k, n - k, |path|, cap, h, leaves);
      if r == Ok {
        path, n := path + [Left], k;
      }
    } else if first >= lo + k {
      if honest {
        CollectRight(h, leaves, first, count, siblings, lo, n);
      }
      r, taken := TakeSibling(provider, lo, k, |path|, cap, h, leaves);
      if r == Ok {
        path, lo, n := path + [Right], lo + k, n - k;
      }
    } else {
      r, taken := Shape, [];
    }
    siblings := siblings + taken;
  }

  /** One sibling, when they are wanted: it must fit, and the provider must have it. */
  method TakeSibling(provider: Provider, lo: nat, n: nat, depth: nat, cap: nat, ghost h: HashFn, ghost leaves: seq<Digest>)
    returns (r: Outcome, taken: seq<Digest>)
    requires 0 < n < MAX_LEAVES && (provider.FromArray? ==> lo + n <= |provider.leaves|)
    ensures provider.NoSiblings? ==> r == Ok
    ensures r == Ok && !provider.NoSiblings? ==> 32 * (depth + 1) <= cap
    ensures Speaks(provider, h, leaves) && n < |leaves| && lo + n <= |leaves| ==>
              if 32 * (depth + 1) <= cap then r == Ok && taken == [Apex(h, leaves[lo..lo + n])] else r == Malformed
  {
    taken := [];
    if provider.NoSiblings? {
      return Ok, taken;
    }
    if cap < 32 * (depth + 1) {
      return Malformed, taken;
    }
    if provider.FromArray? {
      var apex: Digest;
      r, apex := TreeBuilder.SubtreeRoot(provider.hash, provider.leaves, lo, n);
      return r, [apex];
    }
    var f := provider.subtree(lo, n);
    if f.NotFetched? {
      return Failed, taken;
    }
    return Ok, [f.apex];
  }

  lemma WalkStart(n: nat, first: nat, count: nat, h: HashFn, leaves: seq<Digest>)
    requires 0 < n <= MAX_LEAVES && 0 < count && first + count <= n
    ensures OnTheWay(n, first, count, [], 0, n)
    ensures |leaves| == n ==> Collected(h, leaves, first, count, [], 0, n)
  {
    hide Walk, Pow2, Siblings;
    if Walk(n, first, count).Some? {
      assert [] + Walk(n, first, count).value == Walk(n, first, count).value;
      if |leaves| == n {
        assert leaves[0..n] == leaves;
        assert [] + Siblings(h, leaves, first, count) == Siblings(h, leaves, first, count);
      }
    }
  }

  lemma WalkEnd(leafCount: nat, first: nat, count: nat, path: seq<Side>, lo: nat, n: nat, h: HashFn,
                leaves: seq<Digest>, siblings: seq<Digest>)
    requires OnTheWay(leafCount, first, count, path, lo, n) && lo == first && n == count
    ensures Walk(leafCount, first, count) == Some(path) && |path| <= MAX_DEPTH
    ensures leafCount == |leaves| && Collected(h, leaves, first, count, siblings, lo, n) ==>
              siblings == Siblings(h, leaves, first, count)
  {
    hide Walk, Pow2, Siblings;
    WalkCase(n, 0, count);
    assert path + [] == path && siblings + [] == siblings;
    if leafCount == |leaves| {
      WholeSpan(h, leaves[lo..lo + n]);
    }
  }

  // ---- spans ---------------------------------------------------------------------------

  /** Whether the span is a node of the tree over `leafCount` leaves. */
  method IsCanonical(leafCount: nat, first: nat, count: nat) returns (yes: bool)
    ensures yes <==> 0 < leafCount <= MAX_LEAVES && 0 < count && (first, count) in Nodes(0, leafCount)
  {
    hide Pow2, Walk, Nodes, SplitAt, Siblings, Apex;
    if leafCount == 0 || leafCount > TreeBuilder.MaxLeaves() {
      return false;
    }
    if (first, count) in Nodes(0, leafCount) {
      NodesWithin(0, leafCount, first, count);
    }
    if count == 0 || count > leafCount || first > leafCount - count {
      return false;
    }
    CanonicalIsNode(0, leafCount, first, count);
    var r, path, siblings := SpanWalk(NoSiblings, leafCount, first, count, 0, x => seq(32, _ => 0), []);
    yes := r == Ok;
  }

  /** A span's proof with the siblings from `subtree`. Whatever leaves the provider speaks for, the proof is theirs. */
  method SpanProofFrom(subtree: (nat, nat) -> Fetched, leafCount: nat, first: nat, count: nat, cap: nat,
                       ghost h: HashFn, ghost leaves: seq<Digest>)
    returns (r: Outcome, proof: seq<Digest>)
    ensures !(0 < leafCount <= MAX_LEAVES && 0 < count && first + count <= leafCount) ==> r == Malformed
    ensures |leaves| == leafCount && Honest(subtree, h, leaves) ==>
              && (r == Ok <==> && 0 < leafCount <= MAX_LEAVES && 0 < count && first + count <= leafCount
                               && Walk(leafCount, first, count).Some?
                               && 32 * |Walk(leafCount, first, count).value| <= cap)
              && (r == Ok ==> proof == Siblings(h, leaves, first, count))
  {
    hide Pow2, Walk, Siblings, Honest;
    r, proof := SpanProof(From(subtree), leafCount, first, count, cap, h, leaves);
  }

  /** A span's proof from the leaf hashes, each sibling computed by pushing its leaves through the streaming builder. */
  method SpanProofBuild(h: HashFn, leaves: seq<Digest>, first: nat, count: nat, cap: nat)
    returns (r: Outcome, proof: seq<Digest>)
    ensures r == Ok <==> && 0 < |leaves| <= MAX_LEAVES && 0 < count && first + count <= |leaves|
                         && Walk(|leaves|, first, count).Some?
                         && 32 * |Walk(|leaves|, first, count).value| <= cap
    ensures r == Ok ==> proof == Siblings(h, leaves, first, count)
  {
    hide Pow2, Walk, Siblings;
    r, proof := SpanProof(FromArray(h, leaves), |leaves|, first, count, cap, h, leaves);
  }

  method SpanProof(provider: Provider, leafCount: nat, first: nat, count: nat, cap: nat, ghost h: HashFn, ghost leaves: seq<Digest>)
    returns (r: Outcome, proof: seq<Digest>)
    requires provider.FromArray? ==> |provider.leaves| == leafCount
    ensures !(0 < leafCount <= MAX_LEAVES && 0 < count && first + count <= leafCount) ==> r == Malformed
    ensures |leaves| == leafCount && Speaks(provider, h, leaves) ==>
              && (r == Ok <==> && 0 < leafCount <= MAX_LEAVES && 0 < count && first + count <= leafCount
                               && Walk(leafCount, first, count).Some?
                               && 32 * |Walk(leafCount, first, count).value| <= cap)
              && (r == Ok ==> proof == Siblings(h, leaves, first, count))
  {
    hide Pow2, Walk, Siblings, Speaks;
    proof := [];
    if leafCount == 0 || leafCount > TreeBuilder.MaxLeaves() {
      return Malformed, proof;
    }
    if count == 0 || count > leafCount || first > leafCount - count {
      return Malformed, proof;
    }
    var path: seq<Side>;
    r, path, proof := SpanWalk(provider, leafCount, first, count, cap, h, leaves);
  }

  /** Climbs from the bottom of the path. */
  method ClimbUp(h: HashFn, path: seq<Side>, siblings: seq<Digest>, start: Digest) returns (acc: Digest)
    requires |path| == |siblings|
    ensures acc == Climb(h, path, siblings, start)
  {
    hide Node;
    acc := start;
    var i := |path|;
    assert path[..i] == path && siblings[..i] == siblings;
    while i > 0
      invariant 0 <= i <= |path|
      invariant Climb(h, path[..i], siblings[..i], acc) == Climb(h, path, siblings, start)
    {
      ClimbFromBottom(h, path[..i], siblings[..i], acc);
      assert path[..i][..i - 1] == path[..i - 1] && siblings[..i][..i - 1] == siblings[..i - 1];
      acc := Join(h, path[i - 1], acc, siblings[i - 1]);
      i := i - 1;
    }
  }

  method SpanProofVerify(h: HashFn, span: Digest, first: nat, count: nat, leafCount: nat, siblings: seq<Digest>,
                         root: Digest)
    returns (r: Outcome)
    ensures r == Ok <==> Accepts(h, span, first, count, leafCount, siblings, root)
  {
    hide Pow2, Walk, Climb, Finalise;
    if leafCount == 0 || leafCount > TreeBuilder.MaxLeaves() {
      return Malformed;
    }
    if count == 0 || count > leafCount || first > leafCount - count {
      return Malformed;
    }
    if Walk(leafCount, first, count).Some? {
      WalkDepth(leafCount, first, count, MAX_DEPTH);
    }
    if |siblings| > MAX_DEPTH {
      return Shape;
    }
    var path, none;
    r, path, none := SpanWalk(NoSiblings, leafCount, first, count, 0, h, []);
    if r != Ok {
      return;
    }
    if |siblings| != |path| {
      return Shape;
    }
    var acc := ClimbUp(h, path, siblings, span);
    r := if Finalise(h, acc, leafCount) == root then Ok else Proof;
  }

  // ---- single leaves ---------------------------------------------------------------------

  /** A leaf's proof from an array of leaf hashes: the siblings of the span of one. */
  method ProofBuild(h: HashFn, leaves: seq<Digest>, index: nat, cap: nat) returns (r: Outcome, proof: seq<Digest>)
    ensures !(0 < |leaves| <= MAX_LEAVES && index < |leaves|) ==> r == Malformed
    ensures 0 < |leaves| <= MAX_LEAVES && index < |leaves| ==>
              && Walk(|leaves|, index, 1).Some?
              && r == (if 32 * |Walk(|leaves|, index, 1).value| <= cap then Ok else Malformed)
              && (r == Ok ==> proof == Siblings(h, leaves, index, 1))
  {
    hide SplitAt, Walk, Pow2, Apex, Siblings, OnTheWay, Collected;
    proof := [];
    if |leaves| == 0 || |leaves| > TreeBuilder.MaxLeaves() || index >= |leaves| {
      return Malformed, proof;
    }
    LeafIsCanonical(|leaves|, index);
    var lo: nat, n: nat := 0, |leaves|;
    ghost var path: seq<Side> := [];
    WalkStart(n, index, 1, h, leaves);
    while n > 1
      invariant OnTheWay(|leaves|, index, 1, path, lo, n) && |path| == |proof| && 32 * |proof| <= cap
      invariant Collected(h, leaves, index, 1, proof, lo, n)
      decreases n
    {
      StepDown(|leaves|, index, 1, path, lo, n);
      // The guard on the proof's last slot is never taken.
      assert |proof| < MAX_DEPTH;
      if cap < 32 * (|proof| + 1) {
        return Malformed, proof;
      }
      lo, n, proof, path := LeafStep(h, leaves, index, lo, n, proof, path);
    }
    LeafArrived(|leaves|, index, path, lo, n);
    WalkEnd(|leaves|, index, 1, path, lo, n, h, leaves, proof);
    r := Ok;
  }

  lemma LeafArrived(leafCount: nat, index: nat, path: seq<Side>, lo: nat, n: nat)
    requires OnTheWay(leafCount, index, 1, path, lo, n) && n <= 1
    ensures lo == index && n == 1
  {
    hide Walk, Pow2;
  }

  method LeafStep(h: HashFn, leaves: seq<Digest>, index: nat, lo0: nat, n0: nat, proof0: seq<Digest>, ghost path0: seq<Side>)
    returns (lo: nat, n: nat, proof: seq<Digest>, ghost path: seq<Side>)
    requires OnTheWay(|leaves|, index, 1, path0, lo0, n0) && n0 > 1 && |leaves| <= MAX_LEAVES
    requires Collected(h, leaves, index, 1, proof0, lo0, n0)
    ensures n < n0 && OnTheWay(|leaves|, index, 1, path, lo, n) && |path| == |path0| + 1
    ensures |proof| == |proof0| + 1 && Collected(h, leaves, index, 1, proof, lo, n)
  {
    hide SplitAt, Walk, Pow2, Apex, Siblings, Collected;
    StepDown(|leaves|, index, 1, path0, lo0, n0);
    var k := SplitLoop(n0);
    var e, sibling;
    if index - lo0 < k {
      CollectLeft(h, leaves, index, 1, proof0, lo0, n0);
      e, sibling := TreeBuilder.SubtreeRoot(h, leaves, lo0 + k, n0 - k);
      lo, n, path := lo0, k, path0 + [Left];
    } else {
      CollectRight(h, leaves, index, 1, proof0, lo0, n0);
      e, sibling := TreeBuilder.SubtreeRoot(h, leaves, lo0, k);
      lo, n, path := lo0 + k, n0 - k, path0 + [Right];
    }
    proof := proof0 + [sibling];
  }

  method ProofVerify(h: HashFn, leaf: Digest, index: nat, leafCount: nat, siblings: seq<Digest>, root: Digest)
    returns (r: Outcome)
    ensures r == Ok <==> Accepts(h, leaf, index, 1, leafCount, siblings, root)
  {
    hide SplitAt, Walk, Pow2, Climb, Finalise, OnTheWay;
    if leafCount == 0 || leafCount > TreeBuilder.MaxLeaves() || index >= leafCount {
      return Malformed;
    }
    LeafIsCanonical(leafCount, index);
    WalkDepth(leafCount, index, 1, MAX_DEPTH);
    if |siblings| > MAX_DEPTH {
      return Shape;
    }
    var path: seq<Side> := [];
    var lo: nat, n: nat := 0, leafCount;
    WalkStart(leafCount, index, 1, h, []);
    while n > 1
      invariant OnTheWay(leafCount, index, 1, path, lo, n)
      decreases n
    {
      StepDown(leafCount, index, 1, path, lo, n);
      // The guard on the path's last slot is never taken.
      assert |path| < MAX_DEPTH;
      var k := SplitLoop(n);
      if index - lo < k {
        path, n := path + [Left], k;
      } else {
        path, lo, n := path + [Right], lo + k, n - k;
      }
    }
    LeafArrived(leafCount, index, path, lo, n);
    WalkEnd(leafCount, index, 1, path, lo, n, h, [], []);
    if |siblings| != |path| {
      return Proof;
    }
    var acc := ClimbUp(h, path, siblings, leaf);
    r := if Finalise(h, acc, leafCount) == root then Ok else Proof;
  }

  // ---- tiling a run -----------------------------------------------------------------------

  /** Where the descent to leaf `first` is: no larger span at `first` fits in `limit`. */
  ghost predicate Searching(leafCount: nat, first: nat, limit: nat, lo: nat, n: nat) {
    && 0 < n && lo <= first < lo + n <= leafCount
    && (forall count: nat :: 0 < count <= limit && Walk(leafCount, first, count).Some? ==> Walk(n, first - lo, count).Some?)
    && (forall count: nat :: 0 < count && Walk(n, first - lo, count).Some? ==> Walk(leafCount, first, count).Some?)
  }

  lemma SearchStep(leafCount: nat, first: nat, limit: nat, lo: nat, n: nat)
    requires Searching(leafCount, first, limit, lo, n) && n > 1 && !(lo == first && n <= limit)
    ensures var k := SplitAt(n);
            if first < lo + k then Searching(leafCount, first, limit, lo, k)
            else Searching(leafCount, first, limit, lo + k, n - k)
  {
    hide SplitAt, Walk;
    var k := SplitAt(n);
    var f: nat := first - lo;
    if first < lo + k {
      forall count: nat | 0 < count <= limit && Walk(n, f, count).Some?
        ensures Walk(k, f, count).Some?
      {
        WalkCase(n, f, count);
      }
      forall count: nat | 0 < count && Walk(k, f, count).Some?
        ensures Walk(n, f, count).Some?
      {
        WalkCase(n, f, count);
        WalkWithin(k, f, count);
      }
    } else {
      var g: nat := f - k;
      forall count: nat | 0 < count <= limit && Walk(n, f, count).Some?
        ensures Walk(n - k, g, count).Some?
      {
        WalkCase(n, f, count);
      }
      forall count: nat | 0 < count && Walk(n - k, g, count).Some?
        ensures Walk(n, f, count).Some?
      {
        WalkCase(n, f, count);
      }
    }
  }

  lemma WalkWithin(n: nat, first: nat, count: nat)
    requires n > 0 && count > 0 && Walk(n, first, count).Some?
    ensures first + count <= n
  {
    hide Walk, Nodes;
    CanonicalIsNode(0, n, first, count);
    NodesWithin(0, n, first, count);
  }

  /** The largest canonical span starting at `first` and no longer than `limit`; 0 for no such leaf or limit. */
  method LargestAt(leafCount: nat, first: nat, limit: nat) returns (best: nat)
    ensures !(0 < leafCount <= MAX_LEAVES && first < leafCount && limit > 0) ==> best == 0
    ensures 0 < leafCount <= MAX_LEAVES && first < leafCount && limit > 0 ==>
              && 0 < best <= limit && first + best <= leafCount && Walk(leafCount, first, best).Some?
              && forall count: nat :: 0 < count <= limit && Walk(leafCount, first, count).Some? ==> count <= best
  {
    hide SplitAt, Walk, Pow2, Searching;
    if leafCount == 0 || leafCount > TreeBuilder.MaxLeaves() || first >= leafCount {
      return 0;
    }
    if limit == 0 {
      return 0;
    }
    var lo: nat, n: nat := 0, leafCount;
    SearchStart(leafCount, first, limit);
    while !(lo == first && n <= limit)
      invariant Searching(leafCount, first, limit, lo, n)
      decreases n
    {
      SearchGoesOn(leafCount, first, limit, lo, n);
      SearchStep(leafCount, first, limit, lo, n);
      var k := SplitLoop(n);
      if first < lo + k {
        n := k;
      } else {
        lo, n := lo + k, n - k;
      }
    }
    SearchEnd(leafCount, first, limit, lo, n);
    best := n;
  }

  lemma SearchStart(leafCount: nat, first: nat, limit: nat)
    requires first < leafCount
    ensures Searching(leafCount, first, limit, 0, leafCount)
  {
    hide Walk;
  }

  /** The descent never runs out above the answer: a single leaf at `first` always fits. */
  lemma SearchGoesOn(leafCount: nat, first: nat, limit: nat, lo: nat, n: nat)
    requires Searching(leafCount, first, limit, lo, n) && limit > 0 && !(lo == first && n <= limit)
    ensures n > 1
  {
    hide Walk;
  }

  lemma SearchEnd(leafCount: nat, first: nat, limit: nat, lo: nat, n: nat)
    requires Searching(leafCount, first, limit, lo, n) && lo == first && n <= limit
    ensures n > 0 && Walk(leafCount, first, n).Some? && first + n <= leafCount
    ensures forall count: nat :: 0 < count <= limit && Walk(leafCount, first, count).Some? ==> count <= n
  {
    hide Walk;
    WalkCase(n, 0, n);
    forall count: nat | 0 < count <= limit && Walk(leafCount, first, count).Some?
      ensures count <= n
    {
      assert Walk(n, first - lo, count).Some?;
      WalkWithin(n, first - lo, count);
    }
  }

  /** The leaves of a run of spans laid end to end from `first`. */
  ghost predicate Tiles(spans: seq<nat>, leafCount: nat, first: nat, end: nat)
    requires leafCount > 0
  {
    if |spans| == 0 then first == end
    else spans[0] > 0 && Walk(leafCount, first, spans[0]).Some? && Tiles(spans[1..], leafCount, first + spans[0], end)
  }

  lemma {:induction false} TilesMore(spans: seq<nat>, leafCount: nat, first: nat, end: nat, count: nat)
    requires leafCount > 0 && Tiles(spans, leafCount, first, end) && count > 0 && Walk(leafCount, end, count).Some?
    ensures Tiles(spans + [count], leafCount, first, end + count)
    decreases |spans|
  {
    hide Walk;
    if |spans| > 0 {
      TilesMore(spans[1..], leafCount, first + spans[0], end, count);
      assert (spans + [count])[1..] == spans[1..] + [count];
    } else {
      assert (spans + [count])[1..] == [];
    }
  }

  /** Taking the largest span that fits, again and again, covers any run of leaves exactly, in spans that each have
      one proof. */
  method Cover(leafCount: nat, first: nat, end: nat) returns (spans: seq<nat>)
    requires 0 < leafCount <= MAX_LEAVES && first <= end <= leafCount
    ensures Tiles(spans, leafCount, first, end) && |spans| <= end - first
  {
    hide Walk, Pow2;
    spans := [];
    var at := first;
    while at < end
      invariant first <= at <= end && Tiles(spans, leafCount, first, at) && |spans| <= at - first
    {
      var count := LargestAt(leafCount, at, end - at);
      TilesMore(spans, leafCount, first, at, count);
      spans := spans + [count];
      at := at + count;
    }
  }
}
