/** Canonical spans, and the descent that both proof builders and both verifiers of blob/blob.c make. */
module Spans {
  import opened ByteOrder
  import opened Collections
  import opened Hashing
  import opened MerkleTree

  datatype Side = Left | Right

  // ---- which spans are nodes ---------------------------------------------------------

  /** Every node of the tree over the `n` leaves from `lo`, as (first leaf, leaves under it). */
  ghost function Nodes(lo: nat, n: nat): (s: set<(nat, nat)>)
    requires n > 0
    decreases n
  {
    {(lo, n)} + if n == 1 then {} else
      var k := SplitAt(n);
      Nodes(lo, k) + Nodes(lo + k, n - k)
  }

  lemma {:induction false} NodesWithin(lo: nat, n: nat, first: nat, count: nat)
    requires n > 0 && (first, count) in Nodes(lo, n)
    ensures count > 0 && lo <= first && first + count <= lo + n
    decreases n
  {
    hide SplitAt;
    if (first, count) != (lo, n) {
      var k := SplitAt(n);
      if (first, count) in Nodes(lo, k) {
        NodesWithin(lo, k, first, count);
      } else {
        NodesWithin(lo + k, n - k, first, count);
      }
    }
  }

  /** The descent to a span, relative to the subtree's own first leaf: the sides taken, if it is reached. */
  function Walk(n: nat, first: nat, count: nat): (r: Option<seq<Side>>)
    requires n > 0
    decreases n
  {
    if first == 0 && count == n then Some([])
    else if n == 1 then None
    else
      var k := SplitAt(n);
      if first + count <= k then After(Left, Walk(k, first, count))
      else if first >= k then After(Right, Walk(n - k, first - k, count))
      else None
  }

  function After(side: Side, rest: Option<seq<Side>>): (r: Option<seq<Side>>) {
    match rest
    case None => None
    case Some(path) => Some([side] + path)
  }

  lemma NodesWhole(lo: nat, n: nat, first: nat, count: nat)
    requires n > 0
    ensures (lo, n) in Nodes(lo, n)
    ensures n == 1 && (first, count) in Nodes(lo, n) ==> (first, count) == (lo, n)
  {
  }

  lemma {:induction false} NodesStep(lo: nat, n: nat, first: nat, count: nat)
    requires n > 1
    ensures var k := SplitAt(n);
            (first, count) in Nodes(lo, n) <==>
            (first, count) == (lo, n) || (first, count) in Nodes(lo, k) || (first, count) in Nodes(lo + k, n - k)
  {
    hide SplitAt;
    var k := SplitAt(n);
    var a, b := Nodes(lo, k), Nodes(lo + k, n - k);
    assert Nodes(lo, n) == {(lo, n)} + (a + b);
    hide Nodes;
  }

  /** A span is canonical exactly when it is a node of the tree. */
  lemma {:induction false} CanonicalIsNode(lo: nat, n: nat, first: nat, count: nat)
    requires n > 0 && count > 0
    ensures Walk(n, first, count).Some? <==> (lo + first, count) in Nodes(lo, n)
    decreases n
  {
    hide SplitAt, Nodes;
    NodesWhole(lo, n, lo + first, count);
    if n > 1 && (first, count) != (0, n) {
      var k := SplitAt(n);
      NodesStep(lo, n, lo + first, count);
      if (lo + first, count) in Nodes(lo, k) {
        NodesWithin(lo, k, lo + first, count);
      }
      if (lo + first, count) in Nodes(lo + k, n - k) {
        NodesWithin(lo + k, n - k, lo + first, count);
      }
      if first + count <= k {
        CanonicalIsNode(lo, k, first, count);
      } else if first >= k {
        CanonicalIsNode(lo + k, n - k, first - k, count);
      }
    }
  }

  /** One step of the descent. */
  lemma {:induction false} WalkStep(n: nat, first: nat, count: nat)
    requires n > 0 && (first, count) != (0, n) && Walk(n, first, count).Some?
    ensures n > 1
    ensures var k, path := SplitAt(n), Walk(n, first, count).value;
            && (first + count <= k || first >= k) && |path| > 0
            && (first + count <= k ==> path[0] == Left && Walk(k, first, count) == Some(path[1..]))
            && (first + count > k ==> path[0] == Right && Walk(n - k, first - k, count) == Some(path[1..]))
  {
    hide SplitAt;
    var k := SplitAt(n);
    if first + count <= k {
      var rest := Walk(k, first, count).value;
      assert ([Left] + rest)[1..] == rest;
    } else {
      var rest := Walk(n - k, first - k, count).value;
      assert ([Right] + rest)[1..] == rest;
    }
  }

  lemma SplitHalves(n: nat, d: nat)
    requires 1 < n <= Pow2(d)
    ensures d > 0 && SplitAt(n) <= Pow2(d - 1) && n - SplitAt(n) <= Pow2(d - 1)
  {
    var k := SplitAt(n);
    var e: nat :| k == Pow2(e);
    Pow2Monotone(d, e);
    if e < d {
      Pow2Monotone(e, d - 1);
    }
  }

  /** A descent in a tree of at most Pow2(d) leaves takes at most `d` steps. */
  lemma {:induction false} WalkDepth(n: nat, first: nat, count: nat, d: nat)
    requires 0 < n <= Pow2(d) && Walk(n, first, count).Some?
    ensures |Walk(n, first, count).value| <= d
    decreases n
  {
    if n > 1 && (first, count) != (0, n) {
      var k := SplitAt(n);
      SplitHalves(n, d);
      if first + count <= k {
        WalkDepth(k, first, count, d - 1);
      } else {
        WalkDepth(n - k, first - k, count, d - 1);
      }
    }
  }

  /** Every leaf is a span of one. */
  lemma {:induction false} LeafIsCanonical(n: nat, index: nat)
    requires index < n
    ensures Walk(n, index, 1).Some?
    decreases n
  {
    if n > 1 {
      var k := SplitAt(n);
      if index < k {
        LeafIsCanonical(k, index);
      } else {
        LeafIsCanonical(n - k, index - k);
      }
    }
  }

  // ---- proofs --------------------------------------------------------------------------

  /** The sibling at each step of the descent, the root's children first. */
  ghost function Siblings(h: HashFn, leaves: seq<Digest>, first: nat, count: nat): (s: seq<Digest>)
    requires |leaves| > 0
    decreases |leaves|
  {
    if (first == 0 && count == |leaves|) || |leaves| == 1 then []
    else
      var k := SplitAt(|leaves|);
      if first + count <= k then [Apex(h, leaves[k..])] + Siblings(h, leaves[..k], first, count)
      else if first >= k then [Apex(h, leaves[..k])] + Siblings(h, leaves[k..], first - k, count)
      else []
  }

  function Join(h: HashFn, side: Side, acc: Digest, sibling: Digest): (r: Digest) {
    match side
    case Left => Node(h, acc, sibling)
    case Right => Node(h, sibling, acc)
  }

  /** The apex a span's hash and its siblings reach. */
  function Climb(h: HashFn, path: seq<Side>, siblings: seq<Digest>, acc: Digest): (r: Digest)
    requires |path| == |siblings|
  {
    if |path| == 0 then acc else Join(h, path[0], Climb(h, path[1..], siblings[1..], acc), siblings[0])
  }

  lemma WholeSpan(h: HashFn, leaves: seq<Digest>)
    requires |leaves| > 0
    ensures Walk(|leaves|, 0, |leaves|) == Some([]) && Siblings(h, leaves, 0, |leaves|) == []
    ensures forall acc :: Climb(h, [], [], acc) == acc
  {
  }

  lemma ClimbStep(h: HashFn, path: seq<Side>, siblings: seq<Digest>, acc: Digest)
    requires |path| == |siblings| > 0
    ensures Climb(h, path, siblings, acc) == Join(h, path[0], Climb(h, path[1..], siblings[1..], acc), siblings[0])
  {
  }

  lemma ApexStep(h: HashFn, leaves: seq<Digest>)
    requires |leaves| > 1
    ensures var k := SplitAt(|leaves|);
            Apex(h, leaves) == Node(h, Apex(h, leaves[..k]), Apex(h, leaves[k..]))
  {
    hide Node;
  }

  lemma SiblingsStep(h: HashFn, leaves: seq<Digest>, first: nat, count: nat)
    requires |leaves| > 1 && (first, count) != (0, |leaves|)
    ensures var k, s := SplitAt(|leaves|), Siblings(h, leaves, first, count);
            && (first + count <= k ==>
                  |s| > 0 && s[0] == Apex(h, leaves[k..]) && s[1..] == Siblings(h, leaves[..k], first, count))
            && (first + count > k && first >= k ==>
                  |s| > 0 && s[0] == Apex(h, leaves[..k]) && s[1..] == Siblings(h, leaves[k..], first - k, count))
  {
    hide Apex, SplitAt;
    var k := SplitAt(|leaves|);
    if first + count <= k {
      Tail(Apex(h, leaves[k..]), Siblings(h, leaves[..k], first, count));
    } else if first >= k {
      Tail(Apex(h, leaves[..k]), Siblings(h, leaves[k..], first - k, count));
    }
  }

  lemma Tail(x: Digest, rest: seq<Digest>)
    ensures ([x] + rest)[0] == x && ([x] + rest)[1..] == rest
  {
  }

  /** The verifier climbs from the bottom; it is the same climb. */
  lemma {:induction false} ClimbFromBottom(h: HashFn, path: seq<Side>, siblings: seq<Digest>, acc: Digest)
    requires |path| == |siblings| > 0
    ensures var d := |path| - 1;
            Climb(h, path, siblings, acc) == Climb(h, path[..d], siblings[..d], Join(h, path[d], acc, siblings[d]))
  {
    hide Join;
    var d := |path| - 1;
    if d > 0 {
      ClimbFromBottom(h, path[1..], siblings[1..], acc);
      assert path[1..][..d - 1] == path[..d][1..] && siblings[1..][..d - 1] == siblings[..d][1..];
    }
  }

  /** What the verifiers accept. */
  ghost predicate Accepts(h: HashFn, span: Digest, first: nat, count: nat, n: nat, siblings: seq<Digest>, root: Digest) {
    && 0 < n <= MAX_LEAVES && 0 < count <= n && first <= n - count
    && Walk(n, first, count).Some?
    && |siblings| == |Walk(n, first, count).value|
    && Finalise(h, Climb(h, Walk(n, first, count).value, siblings, span), n) == root
  }

  lemma {:induction false} ClimbReachesApex(h: HashFn, leaves: seq<Digest>, first: nat, count: nat)
    requires |leaves| > 0 && count > 0 && first + count <= |leaves| && Walk(|leaves|, first, count).Some?
    ensures |Siblings(h, leaves, first, count)| == |Walk(|leaves|, first, count).value|
    ensures Climb(h, Walk(|leaves|, first, count).value, Siblings(h, leaves, first, count),
                  Apex(h, leaves[first..first + count])) == Apex(h, leaves)
    decreases |leaves|
  {
    var n := |leaves|;
    hide Node, SplitAt, Walk, Apex, Climb, Siblings;
    if first == 0 && count == n {
      WholeSpan(h, leaves);
      assert leaves[first..first + count] == leaves;
      return;
    }
    var k := SplitAt(n);
    WalkStep(n, first, count);
    SiblingsStep(h, leaves, first, count);
    ApexStep(h, leaves);
    if first + count <= k {
      ClimbReachesApex(h, leaves[..k], first, count);
      assert leaves[..k][first..first + count] == leaves[first..first + count];
    } else {
      ClimbReachesApex(h, leaves[k..], first - k, count);
      assert leaves[k..][first - k..first - k + count] == leaves[first..first + count];
    }
    ClimbStep(h, Walk(n, first, count).value, Siblings(h, leaves, first, count), Apex(h, leaves[first..first + count]));
  }

  /** Completeness: the siblings of a canonical span are accepted. */
  lemma Complete(h: HashFn, leaves: seq<Digest>, first: nat, count: nat)
    requires 0 < |leaves| <= MAX_LEAVES && 0 < count && first + count <= |leaves|
    requires Walk(|leaves|, first, count).Some?
    ensures Accepts(h, Apex(h, leaves[first..first + count]), first, count, |leaves|,
                    Siblings(h, leaves, first, count), Finalise(h, Apex(h, leaves), |leaves|))
  {
    hide Climb, Apex, Finalise, Pow2;
    ClimbReachesApex(h, leaves, first, count);
  }

  /** Climbing to a tree's apex starts from that tree's own node, or shows a collision on the way. */
  lemma {:induction false} ClimbBinds(h: HashFn, leaves: seq<Digest>, first: nat, count: nat, siblings: seq<Digest>,
                                      span: Digest) returns (x: Bytes, y: Bytes)
    requires |leaves| > 0 && count > 0 && first + count <= |leaves| && Walk(|leaves|, first, count).Some?
    requires |siblings| == |Walk(|leaves|, first, count).value|
    requires Climb(h, Walk(|leaves|, first, count).value, siblings, span) == Apex(h, leaves)
    ensures span == Apex(h, leaves[first..first + count]) || Collision(h, x, y)
    decreases |leaves|
  {
    hide Node, SplitAt, Walk, Apex, Climb;
    x, y := [], [];
    if first == 0 && count == |leaves| {
      WholeSpan(h, leaves);
      assert leaves[first..first + count] == leaves;
      return;
    }
    WalkStep(|leaves|, first, count);
    ApexStep(h, leaves);
    var k := SplitAt(|leaves|);
    var l, r := Apex(h, leaves[..k]), Apex(h, leaves[k..]);
    var path := Walk(|leaves|, first, count).value;
    ClimbStep(h, path, siblings, span);
    var below := Climb(h, path[1..], siblings[1..], span);
    if first + count <= k {
      NodeBinds(h, below, siblings[0], l, r);
      if below == l {
        x, y := ClimbBinds(h, leaves[..k], first, count, siblings[1..], span);
        assert leaves[..k][first..first + count] == leaves[first..first + count];
      } else {
        x, y := NodeInput(below, siblings[0]), NodeInput(l, r);
      }
    } else {
      NodeBinds(h, siblings[0], below, l, r);
      if below == r {
        x, y := ClimbBinds(h, leaves[k..], first - k, count, siblings[1..], span);
        assert leaves[k..][first - k..first - k + count] == leaves[first..first + count];
      } else {
        x, y := NodeInput(siblings[0], below), NodeInput(l, r);
      }
    }
  }

  lemma CountFits(n: nat)
    requires n <= MAX_LEAVES
    ensures n < Power256(8)
  {
    Power256IsPow2(8);
    Pow2Monotone(MAX_DEPTH, 64);
  }

  lemma {:induction false} Power256IsPow2(n: nat)
    ensures Power256(n) == Pow2(8 * n)
  {
    if n > 0 {
      Power256IsPow2(n - 1);
      var m := 8 * (n - 1);
      assert Pow2(m + 2) == 4 * Pow2(m);
      assert Pow2(m + 4) == 4 * Pow2(m + 2);
      assert Pow2(m + 6) == 4 * Pow2(m + 4);
      assert Pow2(m + 8) == 4 * Pow2(m + 6);
    }
  }

  /** Soundness: a proof accepted against the root of some blob is of a span of that blob, under its own leaf
      count, and the hash offered is that span's -- or two inputs with one hash are at hand. */
  lemma Sound(h: HashFn, leaves: seq<Digest>, span: Digest, first: nat, count: nat, n: nat, siblings: seq<Digest>)
    returns (x: Bytes, y: Bytes)
    requires 0 < |leaves| <= MAX_LEAVES
    requires Accepts(h, span, first, count, n, siblings, Finalise(h, Apex(h, leaves), |leaves|))
    ensures (n == |leaves| && span == Apex(h, leaves[first..first + count])) || Collision(h, x, y)
  {
    hide Climb, Apex, Finalise, Pow2;
    CountFits(n);
    CountFits(|leaves|);
    var apex := Climb(h, Walk(n, first, count).value, siblings, span);
    RootBinds(h, apex, n, Apex(h, leaves), |leaves|);
    if apex == Apex(h, leaves) && n == |leaves| {
      x, y := ClimbBinds(h, leaves, first, count, siblings, span);
    } else {
      x, y := RootInput(apex, n), RootInput(Apex(h, leaves), |leaves|);
    }
  }
}
