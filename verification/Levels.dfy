/** The level store of blob/levels.c: every perfect subtree written out once, and proofs read back from it. */
module Levels {
  import opened Hashing
  import opened MerkleTree
  import opened Spans
  import opened BlobProofs
  import TreeBuilder

  // ---- where nodes go -----------------------------------------------------------------

  /** `n >> level`. */
  function Shr(n: nat, level: nat): (r: nat) {
    if level == 0 then n else Shr(n, level - 1) / 2
  }

  /** The offset of the level's first node, in nodes: the nodes of every level below it. */
  function LevelAt(leaves: nat, level: nat): (at: nat) {
    if level == 0 then 0 else LevelAt(leaves, level - 1) + Shr(leaves, level - 1)
  }

  /** The byte offset of node `index` of a level. */
  function Offset(leaves: nat, level: nat, index: nat): (at: nat) {
    (LevelAt(leaves, level) + index) * 32
  }

  /** Nodes are packed level after level, lowest first, 32 bytes each. */
  lemma OffsetsPacked(leaves: nat, level: nat, index: nat)
    ensures Offset(leaves, 0, 0) == 0 && Offset(leaves, level, index + 1) == Offset(leaves, level, index) + 32
    ensures Offset(leaves, level + 1, 0) == Offset(leaves, level, Shr(leaves, level))
  {
  }

  /** The first leaf under a node, and the first past it. */
  function Begin(level: nat, index: nat): (at: nat) {
    if level == 0 then index else Begin(level - 1, 2 * index)
  }

  function End(level: nat, index: nat): (at: nat) {
    if level == 0 then index + 1 else End(level - 1, 2 * index + 1)
  }

  lemma {:induction false} BeginEnd(level: nat, index: nat)
    ensures Begin(level, index + 1) == End(level, index)
    ensures End(level, index) == Begin(level, index) + Pow2(level)
  {
    if level > 0 {
      BeginEnd(level - 1, 2 * index);
      BeginEnd(level - 1, 2 * index + 1);
    }
  }

  /** A node is there exactly when all its leaves are. */
  lemma {:induction false} NodeFits(leaves: nat, level: nat, index: nat)
    ensures index < Shr(leaves, level) <==> End(level, index) <= leaves
  {
    if level > 0 {
      NodeFits(leaves, level - 1, 2 * index + 1);
    }
  }

  lemma {:induction false} LevelAtMonotone(leaves: nat, low: nat, high: nat)
    requires low <= high
    ensures LevelAt(leaves, low) <= LevelAt(leaves, high)
  {
    if low < high {
      LevelAtMonotone(leaves, low, high - 1);
    }
  }

  /** Every node sits at its own offset, 32 bytes clear of every other. */
  lemma OffsetsApart(leaves: nat, level: nat, index: nat, level': nat, index': nat)
    requires End(level, index) <= leaves && End(level', index') <= leaves
    requires (level, index) != (level', index')
    ensures Offset(leaves, level, index) + 32 <= Offset(leaves, level', index') ||
            Offset(leaves, level', index') + 32 <= Offset(leaves, level, index)
  {
    NodeFits(leaves, level, index);
    NodeFits(leaves, level', index');
    if level < level' {
      LevelAtMonotone(leaves, level + 1, level');
    } else if level' < level {
      LevelAtMonotone(leaves, level' + 1, level);
    }
  }

  // ---- the leaves under a node ----------------------------------------------------------

  ghost function Block(leaves: seq<Digest>, level: nat, index: nat): (s: seq<Digest>)
    requires End(level, index) <= |leaves|
    ensures |s| == Pow2(level)
  {
    BeginEnd(level, index);
    leaves[Begin(level, index)..End(level, index)]
  }

  lemma BlockApex(h: HashFn, leaves: seq<Digest>, level: nat, index: nat)
    requires End(level + 1, index) <= |leaves|
    ensures End(level, 2 * index) <= |leaves| && End(level, 2 * index + 1) <= |leaves|
    ensures Apex(h, Block(leaves, level + 1, index)) ==
            Node(h, Apex(h, Block(leaves, level, 2 * index)), Apex(h, Block(leaves, level, 2 * index + 1)))
  {
    hide Apex, Node;
    BeginEnd(level, 2 * index);
    BeginEnd(level, 2 * index + 1);
    BeginEnd(level + 1, index);
    var left, right := Block(leaves, level, 2 * index), Block(leaves, level, 2 * index + 1);
    assert Block(leaves, level + 1, index) == left + right;
    ApexJoin(h, left, right);
  }

  // ---- writing ----------------------------------------------------------------------------

  /** Every node whose leaves are among the first `count` is written at its offset. */
  ghost predicate Stored(disk: map<nat, Digest>, h: HashFn, leaves: nat, seen: seq<Digest>, count: nat) {
    count <= |seen| &&
    forall level: nat, index: nat {:trigger Offset(leaves, level, index)} :: End(level, index) <= count ==>
      Offset(leaves, level, index) in disk && disk[Offset(leaves, level, index)] == Apex(h, Block(seen, level, index))
  }

  /** The last left node of each level waits for its right sibling. */
  ghost predicate Waiting(pending: seq<Digest>, h: HashFn, seen: seq<Digest>, count: nat) {
    count <= |seen| &&
    forall level: nat {:trigger Shr(count, level)} :: level < |pending| && Shr(count, level) % 2 == 1 ==>
      End(level, Shr(count, level) - 1) <= |seen| && pending[level] == Apex(h, Block(seen, level, Shr(count, level) - 1))
  }

  /** All the lower levels of leaf `count` are right children: it is carried up to `level`. */
  ghost predicate Carries(count: nat, level: nat) {
    forall l: nat {:trigger Shr(count, l)} :: l < level ==> Shr(count, l) % 2 == 1
  }

  /** A node ends with leaf `count` exactly when it is that leaf's ancestor and the leaf is carried up to it. */
  lemma {:induction false} EndsWith(count: nat, level: nat, index: nat)
    ensures End(level, index) == count + 1 <==> index == Shr(count, level) && Carries(count, level)
  {
    if level > 0 {
      EndsWith(count, level - 1, 2 * index + 1);
      assert Shr(count, level) == Shr(count, level - 1) / 2;
      assert Carries(count, level) <==> Carries(count, level - 1) && Shr(count, level - 1) % 2 == 1;
    }
  }

  /** Adding one carries up to `level` and no further. */
  lemma {:induction false} ShrNext(count: nat, level: nat, l: nat)
    requires Carries(count, level) && Shr(count, level) % 2 == 0
    ensures Shr(count + 1, l) == if l <= level then Shr(count, l) + 1 else Shr(count, l)
  {
    if l > 0 {
      ShrNext(count, level, l - 1);
      if l <= level {
        assert Shr(count, l - 1) % 2 == 1;
      }
    }
  }

  /** A count below 2^40 is not carried past the last level. */
  lemma CarryBound(count: nat, level: nat)
    requires Carries(count, level) && Shr(count, level) % 2 == 1
    ensures count + 1 >= Pow2(level + 1)
  {
    EndsWith(count, level, Shr(count, level));
    BeginEnd(level, Shr(count, level));
    BeginGrows(level, Shr(count, level));
  }

  lemma {:induction false} BeginGrows(level: nat, index: nat)
    ensures Begin(level, index) == index * Pow2(level)
  {
    if level > 0 {
      BeginGrows(level - 1, 2 * index);
      assert 2 * index * Pow2(level - 1) == index * (2 * Pow2(level - 1));
    }
  }

  /** As `Stored`, and the nodes leaf `count` completes below `level` as well. */
  ghost predicate StoredBelow(disk: map<nat, Digest>, h: HashFn, leaves: nat, seen: seq<Digest>, count: nat, level: nat) {
    |seen| == count + 1 <= leaves &&
    forall l: nat, index: nat {:trigger Offset(leaves, l, index)} ::
      (End(l, index) <= count || (End(l, index) == count + 1 && l < level)) ==>
        Offset(leaves, l, index) in disk && disk[Offset(leaves, l, index)] == Apex(h, Block(seen, l, index))
  }

  /** The leaves seen grow; the blocks before the new one are the same. */
  lemma SeenGrows(disk: map<nat, Digest>, h: HashFn, leaves: nat, seen: seq<Digest>, leaf: Digest, pending: seq<Digest>)
    requires Stored(disk, h, leaves, seen, |seen|) && Waiting(pending, h, seen, |seen|) && |seen| < leaves
    ensures StoredBelow(disk, h, leaves, seen + [leaf], |seen|, 0)
    ensures Waiting(pending, h, seen + [leaf], |seen|)
  {
    hide Apex, Offset, End, Begin, Pow2;
    forall l: nat, index: nat | End(l, index) <= |seen|
      ensures Block(seen + [leaf], l, index) == Block(seen, l, index)
    {
      BeginEnd(l, index);
    }
  }

  lemma WriteNode(disk: map<nat, Digest>, h: HashFn, leaves: nat, seen: seq<Digest>, count: nat, level: nat, node: Digest)
    requires StoredBelow(disk, h, leaves, seen, count, level) && Carries(count, level)
    requires End(level, Shr(count, level)) <= |seen| && node == Apex(h, Block(seen, level, Shr(count, level)))
    ensures StoredBelow(disk[Offset(leaves, level, Shr(count, level)) := node], h, leaves, seen, count, level + 1)
  {
    hide Apex, Offset, Block;
    var at := Shr(count, level);
    var after := disk[Offset(leaves, level, at) := node];
    forall l: nat, index: nat {:trigger Offset(leaves, l, index)}
      | End(l, index) <= count || (End(l, index) == count + 1 && l < level + 1)
      ensures Offset(leaves, l, index) in after && after[Offset(leaves, l, index)] == Apex(h, Block(seen, l, index))
    {
      EndsWith(count, l, index);
      EndsWith(count, level, at);
      if (l, index) != (level, at) {
        OffsetsApart(leaves, l, index, level, at);
      }
    }
  }

  lemma AllWritten(disk: map<nat, Digest>, h: HashFn, leaves: nat, seen: seq<Digest>, count: nat, level: nat)
    requires StoredBelow(disk, h, leaves, seen, count, level + 1) && Shr(count, level) % 2 == 0
    ensures Stored(disk, h, leaves, seen, count + 1)
  {
    hide Apex, Offset, Block;
    forall l: nat, index: nat {:trigger Offset(leaves, l, index)} | End(l, index) <= count + 1
      ensures Offset(leaves, l, index) in disk && disk[Offset(leaves, l, index)] == Apex(h, Block(seen, l, index))
    {
      EndsWith(count, l, index);
    }
  }

  /** The node a right child and its waiting sibling make. */
  lemma CarryNode(h: HashFn, seen: seq<Digest>, pending: seq<Digest>, count: nat, level: nat)
    requires |seen| == count + 1 && Carries(count, level) && Shr(count, level) % 2 == 1 && level < |pending|
    requires Waiting(pending, h, seen, count)
    ensures Carries(count, level + 1) && Shr(count, level + 1) == Shr(count, level) / 2
    ensures End(level, Shr(count, level)) == count + 1 == End(level + 1, Shr(count, level + 1))
    ensures Node(h, pending[level], Apex(h, Block(seen, level, Shr(count, level)))) ==
            Apex(h, Block(seen, level + 1, Shr(count, level + 1)))
  {
    hide Apex, Node, Block;
    EndsWith(count, level, Shr(count, level));
    EndsWith(count, level + 1, Shr(count, level + 1));
    BlockApex(h, seen, level, Shr(count, level + 1));
  }

  lemma NowWaiting(h: HashFn, seen: seq<Digest>, pending: seq<Digest>, count: nat, level: nat, node: Digest)
    requires |seen| == count + 1 && Carries(count, level) && Shr(count, level) % 2 == 0 && level < |pending|
    requires Waiting(pending, h, seen, count)
    requires End(level, Shr(count, level)) <= |seen| && node == Apex(h, Block(seen, level, Shr(count, level)))
    ensures Waiting(pending[level := node], h, seen, count + 1)
  {
    hide Apex, Block, End, Shr;
    var after := pending[level := node];
    forall l: nat {:trigger Shr(count + 1, l)} | l < |after| && Shr(count + 1, l) % 2 == 1
      ensures End(l, Shr(count + 1, l) - 1) <= |seen| && after[l] == Apex(h, Block(seen, l, Shr(count + 1, l) - 1))
    {
      ShrNext(count, level, l);
    }
  }

  class Builder {
    const hash: HashFn
    const leaves: nat
    const pending: array<Digest>
    var pushed: nat
    /** What has been written, by byte offset. */
    var disk: map<nat, Digest>
    ghost var seen: seq<Digest>

    ghost predicate Valid()
      reads this, pending
    {
      && pending.Length == MAX_DEPTH && 0 < leaves <= MAX_LEAVES && pushed == |seen| <= leaves
      && Stored(disk, hash, leaves, seen, pushed)
      && Waiting(pending[..], hash, seen, pushed)
    }

    constructor (h: HashFn, n: nat)
      requires 0 < n <= MAX_LEAVES
      ensures Valid() && hash == h && leaves == n && pushed == 0 && fresh(pending)
    {
      hash, leaves, pushed, disk, seen := h, n, 0, map[], [];
      pending := new Digest[MAX_DEPTH](_ => seq(32, _ => 0));
      new;
      hide Pow2, Apex;
      forall level: nat, index: nat
        ensures End(level, index) > 0
      {
        BeginEnd(level, index);
      }
      forall level: nat
        ensures Shr(0, level) == 0
      {
        ShrZero(level);
      }
    }

    /** Writes leaf `pushed` and every perfect node it completes. Past the leaves begun with it is refused; and the last
        leaf of a blob of exactly 2^40 runs out of levels. */
    method Push(leaf: Digest) returns (r: Outcome)
      requires Valid()
      modifies this`pushed, this`disk, this`seen, pending
      ensures r == if old(pushed) >= leaves then Full else if old(pushed) + 1 < MAX_LEAVES then Ok else Shape
      ensures r == Full ==> Valid()
      ensures r == Ok ==> Valid()
      ensures seen == if r == Full then old(seen) else old(seen) + [leaf]
    {
      hide Pow2, Apex, Stored, Waiting, Carries, StoredBelow, Offset, Node;
      if pushed >= leaves {
        return Full;
      }
      var index: nat, level: nat, node := pushed, 0, leaf;
      ghost var count := pushed;
      SeenGrows(disk, hash, leaves, seen, leaf, pending[..]);
      pushed := pushed + 1;
      seen := seen + [leaf];
      LeafNode(hash, seen, count);
      WriteNode(disk, hash, leaves, seen, count, 0, node);
      disk := disk[Offset(leaves, level, index) := node];
      while index % 2 == 1
        invariant seen == old(seen) + [leaf] && pushed == |seen| == count + 1 <= leaves
        invariant level < MAX_DEPTH && index == Shr(count, level) && Carries(count, level)
        invariant StoredBelow(disk, hash, leaves, seen, count, level + 1)
        invariant Waiting(pending[..], hash, seen, count)
        invariant End(level, index) == count + 1 && node == Apex(hash, Block(seen, level, index))
        decreases MAX_DEPTH - level
      {
        if level + 1 >= MAX_DEPTH {
          CarryBound(count, level);
          return Shape;
        }
        CarryNode(hash, seen, pending[..], count, level);
        node := Node(hash, pending[level], node);
        level := level + 1;
        index := index / 2;
        WriteNode(disk, hash, leaves, seen, count, level, node);
        disk := disk[Offset(leaves, level, index) := node];
      }
      AllWritten(disk, hash, leaves, seen, count, level);
      NowWaiting(hash, seen, pending[..], count, level, node);
      ghost var after := pending[..][level := node];
      pending[level] := node;
      assert pending[..] == after;
      NotLast(count, level);
      r := Ok;
    }
  }

  lemma ShrZero(level: nat)
    ensures Shr(0, level) == 0
  {
  }

  lemma LeafNode(h: HashFn, seen: seq<Digest>, count: nat)
    requires |seen| == count + 1
    ensures Carries(count, 0) && Shr(count, 0) == count && End(0, count) == count + 1
    ensures Apex(h, Block(seen, 0, count)) == seen[count]
  {
  }

  lemma {:induction false} ShrAllOnes(depth: nat, level: nat)
    requires level <= depth
    ensures Shr(Pow2(depth) - 1, level) == Pow2(depth - level) - 1
  {
    if level > 0 {
      ShrAllOnes(depth, level - 1);
      assert Pow2(depth - level + 1) == 2 * Pow2(depth - level);
    }
  }

  /** A leaf whose carry stopped was not the last of 2^40. */
  lemma NotLast(count: nat, level: nat)
    requires Shr(count, level) % 2 == 0 && level < MAX_DEPTH && count < MAX_LEAVES
    ensures count + 1 < MAX_LEAVES
  {
    hide Pow2, Shr;
    AllOnesOdd(MAX_DEPTH, level);
  }

  lemma AllOnesOdd(depth: nat, level: nat)
    requires level < depth
    ensures Shr(Pow2(depth) - 1, level) % 2 == 1
  {
    hide Pow2, Shr;
    ShrAllOnes(depth, level);
    TreeBuilder.Pow2Next(depth - level - 1);
  }

  // ---- reading ------------------------------------------------------------------------------

  /** `n` is a power of two: `n & (n - 1)` is zero. */
  predicate PowerOfTwo(n: nat)
  {
    n == 1 || (n > 1 && n % 2 == 0 && PowerOfTwo(n / 2))
  }

  /** The level whose nodes are over `n` leaves. */
  function LevelOf(n: nat): (level: nat)
    requires PowerOfTwo(n)
    ensures Pow2(level) == n
  {
    if n == 1 then 0 else 1 + LevelOf(n / 2)
  }

  /** The low `bits` bits of `n` are zero: `n` masked with 2^bits - 1 is zero. */
  predicate LowBitsZero(n: nat, bits: nat)
  {
    bits == 0 || (n % 2 == 0 && LowBitsZero(n / 2, bits - 1))
  }

  lemma {:induction false} AlignedBegin(lo: nat, level: nat)
    requires LowBitsZero(lo, level)
    ensures Begin(level, Shr(lo, level)) == lo
  {
    if level > 0 {
      ShrHalf(lo, level - 1);
      AlignedBegin(lo / 2, level - 1);
      BeginDouble(level - 1, Shr(lo, level));
    }
  }

  lemma {:induction false} ShrHalf(n: nat, level: nat)
    ensures Shr(n, level + 1) == Shr(n / 2, level)
  {
    if level > 0 {
      ShrHalf(n, level - 1);
    }
  }

  lemma {:induction false} BeginDouble(level: nat, index: nat)
    ensures Begin(level, 2 * index) == 2 * Begin(level, index)
  {
    if level > 0 {
      BeginDouble(level - 1, 2 * index);
    }
  }

  /** The apex over `[lo, lo + n)`: read where it is a perfect node, folded along the ragged edge where it is not. */
  function Subtree(disk: map<nat, Digest>, h: HashFn, leaves: nat, lo: nat, n: nat): (r: Fetched)
    decreases n
  {
    if n == 0 || lo > leaves || n > leaves - lo then NotFetched
    else if PowerOfTwo(n) && LowBitsZero(lo, LevelOf(n)) then
      var level := LevelOf(n);
      var at := Offset(leaves, level, Shr(lo, level));
      if at in disk then Fetched(disk[at]) else NotFetched
    else
      var k := SplitAt(n);
      var left := Subtree(disk, h, leaves, lo, k);
      var right := Subtree(disk, h, leaves, lo + k, n - k);
      if left.NotFetched? || right.NotFetched? then NotFetched else Fetched(Node(h, left.apex, right.apex))
  }

  /** An aligned range is one read. */
  lemma AlignedRead(disk: map<nat, Digest>, h: HashFn, seen: seq<Digest>, lo: nat, n: nat)
    requires Stored(disk, h, |seen|, seen, |seen|) && 0 < n && lo + n <= |seen|
    requires PowerOfTwo(n) && LowBitsZero(lo, LevelOf(n))
    ensures Subtree(disk, h, |seen|, lo, n) == Fetched(Apex(h, seen[lo..lo + n]))
  {
    hide Apex, Node, SplitAt, Offset, Begin, End, Shr, Pow2;
    var level := LevelOf(n);
    var index := Shr(lo, level);
    AlignedBegin(lo, level);
    BeginEnd(level, index);
    assert Offset(|seen|, level, index) in disk;
    assert Block(seen, level, index) == seen[lo..lo + n];
  }

  lemma LeafAligned(lo: nat)
    ensures PowerOfTwo(1) && LowBitsZero(lo, LevelOf(1))
  {
  }

  /** Once every leaf is pushed, every range answers with its tree hash. */
  lemma {:induction false} SubtreeIsApex(disk: map<nat, Digest>, h: HashFn, seen: seq<Digest>, lo: nat, n: nat)
    requires Stored(disk, h, |seen|, seen, |seen|) && 0 < n && lo + n <= |seen|
    ensures Subtree(disk, h, |seen|, lo, n) == Fetched(Apex(h, seen[lo..lo + n]))
    decreases n
  {
    hide Apex, Node, SplitAt, Stored, Offset, Shr, Pow2, LevelOf, LowBitsZero, PowerOfTwo;
    LeafAligned(lo);
    if PowerOfTwo(n) && LowBitsZero(lo, LevelOf(n)) {
      AlignedRead(disk, h, seen, lo, n);
    } else {
      var k, range := SplitAt(n), seen[lo..lo + n];
      SubtreeIsApex(disk, h, seen, lo, k);
      SubtreeIsApex(disk, h, seen, lo + k, n - k);
      assert range[..k] == seen[lo..lo + k] && range[k..] == seen[lo + k..lo + n];
      ApexStep(h, range);
    }
  }

  /** The store's provider. */
  function FromLevels(disk: map<nat, Digest>, h: HashFn, leaves: nat): (subtree: (nat, nat) -> Fetched) {
    (lo: nat, n: nat) => Subtree(disk, h, leaves, lo, n)
  }

  lemma LevelsHonest(disk: map<nat, Digest>, h: HashFn, seen: seq<Digest>)
    requires Stored(disk, h, |seen|, seen, |seen|)
    ensures Honest(FromLevels(disk, h, |seen|), h, seen)
  {
    hide Apex, Subtree, Stored;
    forall lo: nat, n: nat | 0 < n < |seen| && lo + n <= |seen|
      ensures FromLevels(disk, h, |seen|)(lo, n) == Fetched(Apex(h, seen[lo..lo + n]))
    {
      SubtreeIsApex(disk, h, seen, lo, n);
    }
  }

  /** A span's proof from the store is the array builder's, digest for digest. */
  method SpanProof(builder: Builder, first: nat, count: nat, cap: nat) returns (r: Outcome, proof: seq<Digest>)
    requires builder.Valid() && builder.pushed == builder.leaves
    ensures r == Ok <==> && 0 < count && first + count <= builder.leaves
                         && Walk(builder.leaves, first, count).Some?
                         && 32 * |Walk(builder.leaves, first, count).value| <= cap
    ensures r == Ok ==> proof == Siblings(builder.hash, builder.seen, first, count)
  {
    hide Walk, Siblings, Honest, FromLevels, Stored, Waiting, Pow2;
    LevelsHonest(builder.disk, builder.hash, builder.seen);
    r, proof := SpanProofFrom(FromLevels(builder.disk, builder.hash, builder.leaves), builder.leaves, first, count, cap,
                              builder.hash, builder.seen);
  }
}
