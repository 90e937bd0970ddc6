/** The streaming builder of blob/blob.c: a stack of perfect subtrees kept as a binary counter. */
module TreeBuilder {
  import opened Hashing
  import opened MerkleTree

  // ---- the counter ----------------------------------------------------------------

  /** The leaves under entries of these heights. */
  function Size(levels: seq<nat>): (n: nat) {
    if |levels| == 0 then 0 else Size(levels[..|levels| - 1]) + Pow2(levels[|levels| - 1])
  }

  ghost predicate Descending(levels: seq<nat>) {
    forall i, j :: 0 <= i < j < |levels| ==> levels[i] > levels[j]
  }

  /** Each entry of the stack is the apex over its own run of leaves, in order. */
  ghost predicate Forest(h: HashFn, stack: seq<Digest>, levels: seq<nat>, leaves: seq<Digest>) {
    |stack| == |levels| &&
    if |stack| == 0 then |leaves| == 0
    else
      var d := |stack| - 1;
      var s := Pow2(levels[d]);
      s <= |leaves| && stack[d] == Apex(h, leaves[|leaves| - s..]) &&
      Forest(h, stack[..d], levels[..d], leaves[..|leaves| - s])
  }

  lemma ForestSize(h: HashFn, stack: seq<Digest>, levels: seq<nat>, leaves: seq<Digest>)
    requires Forest(h, stack, levels, leaves)
    ensures Size(levels) == |leaves|
  {
  }

  lemma {:induction false} ForestTop(h: HashFn, stack: seq<Digest>, levels: seq<nat>, leaves: seq<Digest>, top: Digest, level: nat, block: seq<Digest>)
    requires Forest(h, stack, levels, leaves) && |block| == Pow2(level) && top == Apex(h, block)
    ensures Forest(h, stack + [top], levels + [level], leaves + block)
  {
    hide Apex;
    assert (stack + [top])[..|stack|] == stack && (levels + [level])[..|stack|] == levels;
    assert (leaves + block)[..|leaves|] == leaves && (leaves + block)[|leaves|..] == block;
  }

  lemma {:induction false} ForestTop2(h: HashFn, stack: seq<Digest>, levels: seq<nat>, leaves: seq<Digest>)
    returns (before: seq<Digest>, left: seq<Digest>, right: seq<Digest>)
    requires Forest(h, stack, levels, leaves) && |stack| >= 2
    ensures var d := |stack| - 2;
            leaves == before + left + right && Forest(h, stack[..d], levels[..d], before) &&
            |left| == Pow2(levels[d]) && stack[d] == Apex(h, left) &&
            |right| == Pow2(levels[d + 1]) && stack[d + 1] == Apex(h, right)
  {
    hide Apex;
    var d := |stack| - 2;
    right := leaves[|leaves| - Pow2(levels[d + 1])..];
    var rest := leaves[..|leaves| - Pow2(levels[d + 1])];
    assert Forest(h, stack[..d + 1], levels[..d + 1], rest);
    assert stack[..d + 1][..d] == stack[..d] && levels[..d + 1][..d] == levels[..d];
    left := rest[|rest| - Pow2(levels[d])..];
    before := rest[..|rest| - Pow2(levels[d])];
  }

  /** Folding the top two entries when they are the same height. */
  lemma {:induction false} ForestFold(h: HashFn, stack: seq<Digest>, levels: seq<nat>, leaves: seq<Digest>, d: nat)
    requires |stack| == |levels| == d + 2 && Forest(h, stack, levels, leaves) && levels[d] == levels[d + 1]
    ensures Forest(h, stack[..d] + [Node(h, stack[d], stack[d + 1])], levels[..d] + [levels[d] + 1], leaves)
  {
    hide Apex, Node, Forest, Pow2;
    var before, left, right := ForestTop2(h, stack, levels, leaves);
    assert IsPow2(|left|);
    ApexJoin(h, left, right);
    Pow2Next(levels[d]);
    var top := Node(h, stack[d], stack[d + 1]);
    ForestTop(h, stack[..d], levels[..d], before, top, levels[d] + 1, left + right);
    assert before + (left + right) == leaves;
  }

  lemma Pow2Next(n: nat)
    ensures Pow2(n + 1) == 2 * Pow2(n)
  {
  }

  /** The right-to-left fold: `acc` combined with each entry from the top of the stack down. */
  function FoldDown(h: HashFn, stack: seq<Digest>, acc: Digest): (r: Digest)
    decreases |stack|
  {
    if |stack| == 0 then acc
    else FoldDown(h, stack[..|stack| - 1], Node(h, stack[|stack| - 1], acc))
  }

  /** Folding a strictly descending stack over a shorter rest gives the tree hash over everything. */
  lemma {:induction false} FoldIsApex(h: HashFn, stack: seq<Digest>, levels: seq<nat>, leaves: seq<Digest>, rest: seq<Digest>)
    requires Forest(h, stack, levels, leaves) && Descending(levels)
    requires |rest| > 0 && (|levels| > 0 ==> |rest| <= Pow2(levels[|levels| - 1]))
    ensures FoldDown(h, stack, Apex(h, rest)) == Apex(h, leaves + rest)
    decreases |stack|
  {
    hide Apex, Node;
    if |stack| == 0 {
      assert leaves + rest == rest;
    } else {
      var d := |stack| - 1;
      var s := Pow2(levels[d]);
      var block, before := leaves[|leaves| - s..], leaves[..|leaves| - s];
      ApexJoin(h, block, rest);
      if d > 0 {
        Pow2Monotone(levels[d], levels[d - 1]);
      }
      FoldIsApex(h, stack[..d], levels[..d], before, block + rest);
      assert before + (block + rest) == leaves + rest;
    }
  }

  // ---- one entry per set bit --------------------------------------------------------

  function SetBits(n: nat): (r: nat) {
    if n == 0 then 0 else n % 2 + SetBits(n / 2)
  }

  function Lowered(levels: seq<nat>): (r: seq<nat>)
    requires forall i :: 0 <= i < |levels| ==> levels[i] > 0
  {
    seq(|levels|, i requires 0 <= i < |levels| => levels[i] - 1)
  }

  lemma {:induction false} LoweredSize(levels: seq<nat>)
    requires forall i :: 0 <= i < |levels| ==> levels[i] > 0
    ensures Size(levels) == 2 * Size(Lowered(levels))
  {
    var d := |levels| - 1;
    if d >= 0 {
      LoweredSize(levels[..d]);
      assert Lowered(levels)[..d] == Lowered(levels[..d]);
    }
  }

  lemma {:induction false} OnePerSetBit(levels: seq<nat>)
    requires Descending(levels)
    ensures SetBits(Size(levels)) == |levels|
    decreases Size(levels)
  {
    hide Size, Descending;
    if |levels| > 0 {
      var even := HalveSize(levels);
      OnePerSetBit(Lowered(even));
    } else {
      NoLevels(0);
    }
  }

  /** A descending stack of heights below `top` holds fewer than Pow2(top) leaves, and all but one of them
      exactly when every height is there. */
  lemma {:induction false} SizeBound(levels: seq<nat>, top: nat)
    requires Descending(levels) && forall i :: 0 <= i < |levels| ==> levels[i] < top
    ensures Size(levels) < Pow2(top) && |levels| <= top
    ensures Size(levels) + 1 == Pow2(top) <==> |levels| == top
    decreases top
  {
    hide Pow2, Descending, Size;
    if |levels| > 0 {
      var even := HalveSize(levels);
      SizeBound(Lowered(even), top - 1);
      Pow2Next(top - 1);
    } else {
      NoLevels(top);
    }
  }

  lemma NoLevels(top: nat)
    ensures Size([]) == 0 && Pow2(top) >= 1 && (Pow2(top) == 1 <==> top == 0)
  {
    Pow2Monotone(0, top);
  }

  /** Halving a stack of heights: a leaf at the end goes, the others fall by one. */
  lemma HalveSize(levels: seq<nat>) returns (even: seq<nat>)
    requires |levels| > 0 && Descending(levels)
    ensures forall i :: 0 <= i < |even| ==> even[i] > 0
    ensures even == if levels[|levels| - 1] == 0 then levels[..|levels| - 1] else levels
    ensures Descending(Lowered(even)) && |Lowered(even)| == |even|
    ensures Size(levels) == 2 * Size(Lowered(even)) + |levels| - |even| > 0
  {
    var d := |levels| - 1;
    even := if levels[d] == 0 then levels[..d] else levels;
    LoweredSize(even);
  }

  lemma {:induction false} LevelBelow(levels: seq<nat>, top: nat, i: nat)
    requires Size(levels) < Pow2(top) && i < |levels|
    ensures levels[i] < top
  {
    var d := |levels| - 1;
    if i == d {
      Pow2Monotone(top, levels[d]);
    } else {
      LevelBelow(levels[..d], top, i);
    }
  }

  // ---- the builder ------------------------------------------------------------------

  class Tree {
    const hash: HashFn
    const stack: array<Digest>
    const level: array<nat>
    var depth: nat
    var leaves: nat
    /** The leaf hashes pushed so far. */
    ghost var pushed: seq<Digest>

    ghost predicate Valid()
      reads this, stack, level
    {
      && stack.Length == level.Length == MAX_DEPTH && depth <= MAX_DEPTH
      && Forest(hash, stack[..depth], level[..depth], pushed)
      && Descending(level[..depth])
      && leaves == |pushed| < MAX_LEAVES
    }

    constructor (h: HashFn)
      ensures Valid() && hash == h && pushed == [] && fresh(stack) && fresh(level)
    {
      hash := h;
      stack := new Digest[MAX_DEPTH](_ => seq(32, _ => 0));
      level := new nat[MAX_DEPTH](_ => 0);
      depth, leaves, pushed := 0, 0, [];
    }

    /** One entry per set bit of the leaf count, and the stack is full exactly at the last count it can hold. */
    lemma Counter()
      requires Valid()
      ensures depth == SetBits(leaves)
      ensures depth == MAX_DEPTH <==> leaves + 1 == MAX_LEAVES
    {
      hide Forest, Pow2;
      var levels := level[..depth];
      ForestSize(hash, stack[..depth], levels, pushed);
      OnePerSetBit(levels);
      forall i | 0 <= i < |levels|
        ensures levels[i] < MAX_DEPTH
      {
        LevelBelow(levels, MAX_DEPTH, i);
      }
      SizeBound(levels, MAX_DEPTH);
    }

    /** Pushes a leaf hash. It is refused exactly when 2^40 - 1 leaves are in: the stack has no slot left for
        another, though the leaf bound the source names is 2^40. */
    method Push(leaf: Digest) returns (r: Outcome)
      requires Valid()
      modifies this`depth, this`leaves, this`pushed, stack, level
      ensures Valid()
      ensures r == if old(|pushed|) + 1 < MAX_LEAVES then Ok else Full
      ensures pushed == if r == Ok then old(pushed) + [leaf] else old(pushed)
    {
      hide Forest, Pow2, Descending, SetBits;
      Counter();
      if leaves >= MaxLeaves() {
        return Full;
      }
      if depth >= MAX_DEPTH {
        return Full;
      }
      Place(leaf);
      while depth >= 2 && level[depth - 1] == level[depth - 2]
        invariant pushed == old(pushed) + [leaf] && leaves == old(leaves) && Carrying()
        decreases depth
      {
        Fold();
      }
      leaves := leaves + 1;
      Settled();
      r := Ok;
    }

    /** The stack while a carry runs: only the top entry may still be as high as the one under it. */
    ghost predicate Carrying()
      reads this, stack, level
    {
      && stack.Length == level.Length == MAX_DEPTH && 1 <= depth <= MAX_DEPTH
      && Forest(hash, stack[..depth], level[..depth], pushed)
      && Descending(level[..depth - 1])
      && (depth >= 2 ==> level[depth - 2] >= level[depth - 1])
    }

    lemma Settled()
      requires Carrying() && (depth >= 2 ==> level[depth - 1] != level[depth - 2])
      ensures Descending(level[..depth])
    {
      hide Forest;
    }

    method Place(leaf: Digest)
      requires Valid() && depth < MAX_DEPTH
      modifies this`depth, this`pushed, stack, level
      ensures pushed == old(pushed) + [leaf] && Carrying()
    {
      hide Forest, Pow2;
      ForestLeaf(hash, stack[..depth], level[..depth], pushed, leaf);
      stack[depth] := leaf;
      level[depth] := 0;
      depth := depth + 1;
      pushed := pushed + [leaf];
      assert stack[..depth] == old(stack[..depth]) + [leaf] && level[..depth] == old(level[..depth]) + [0];
      assert level[..depth - 1] == old(level[..depth]);
    }

    method Fold()
      requires Carrying() && depth >= 2 && level[depth - 1] == level[depth - 2]
      modifies this`depth, stack, level
      ensures depth == old(depth) - 1 && Carrying()
    {
      hide Forest, Node;
      ghost var d := depth - 2;
      ghost var st, lv := stack[..depth], level[..depth];
      ForestFold(hash, st, lv, pushed, d);
      stack[depth - 2] := Node(hash, stack[depth - 2], stack[depth - 1]);
      level[depth - 2] := level[depth - 2] + 1;
      depth := depth - 1;
      assert stack[..depth] == st[..d] + [Node(hash, st[d], st[d + 1])];
      assert level[..depth] == lv[..d] + [lv[d] + 1];
    }

    /** The plain fold over what has been pushed: RFC 6962's tree hash. */
    method ApexOf() returns (r: Outcome, apex: Digest)
      requires Valid()
      ensures r == if |pushed| == 0 then Malformed else Ok
      ensures r == Ok ==> apex == Apex(hash, pushed)
    {
      apex := seq(32, _ => 0);
      hide Apex, Node;
      if depth == 0 {
        return Malformed, apex;
      }
      var i := depth - 1;
      apex := stack[i];
      while i > 0
        invariant 0 <= i < depth
        invariant FoldDown(hash, stack[..i], apex) == FoldDown(hash, stack[..depth - 1], stack[depth - 1])
      {
        assert stack[..i][..i - 1] == stack[..i - 1];
        apex := Node(hash, stack[i - 1], apex);
        i := i - 1;
      }
      TopIsApex(hash, stack[..depth], level[..depth], pushed);
      assert stack[..depth][..depth - 1] == stack[..depth - 1];
      r := Ok;
    }

    /** The blob's root: the apex with the leaf count bound in. */
    method Root() returns (r: Outcome, root: Digest)
      requires Valid()
      ensures r == if |pushed| == 0 then Malformed else Ok
      ensures r == Ok ==> root == Finalise(hash, Apex(hash, pushed), |pushed|)
    {
      r, root := ApexOf();
      if r == Ok {
        root := Finalise(hash, root, leaves);
      }
    }
  }

  /** The leaf bound, computed. */
  function MaxLeaves(): (n: nat)
    ensures n == MAX_LEAVES
  {
    Pow2(MAX_DEPTH)
  }

  lemma ForestLeaf(h: HashFn, stack: seq<Digest>, levels: seq<nat>, leaves: seq<Digest>, leaf: Digest)
    requires Forest(h, stack, levels, leaves)
    ensures Forest(h, stack + [leaf], levels + [0], leaves + [leaf])
  {
    ForestTop(h, stack, levels, leaves, leaf, 0, [leaf]);
  }

  lemma ForestStep(h: HashFn, stack: seq<Digest>, levels: seq<nat>, leaves: seq<Digest>)
    requires Forest(h, stack, levels, leaves) && |stack| > 0
    ensures |levels| == |stack|
    ensures var d := |stack| - 1;
            var s := Pow2(levels[d]);
            && 0 < s <= |leaves| && stack[d] == Apex(h, leaves[|leaves| - s..])
            && Forest(h, stack[..d], levels[..d], leaves[..|leaves| - s])
  {
    hide Apex;
  }

  lemma TopIsApex(h: HashFn, stack: seq<Digest>, levels: seq<nat>, leaves: seq<Digest>)
    requires Forest(h, stack, levels, leaves) && Descending(levels) && |stack| > 0
    ensures |leaves| > 0
    ensures FoldDown(h, stack[..|stack| - 1], stack[|stack| - 1]) == Apex(h, leaves)
  {
    hide Apex, Node, Forest, FoldDown, Pow2;
    ForestStep(h, stack, levels, leaves);
    var d := |stack| - 1;
    var s := Pow2(levels[d]);
    var block, before := leaves[|leaves| - s..], leaves[..|leaves| - s];
    if d > 0 {
      Pow2Monotone(levels[d], levels[d - 1]);
    }
    FoldIsApex(h, stack[..d], levels[..d], before, block);
    assert before + block == leaves;
  }

  /** A fresh builder with every leaf pushed, or refused where one is. */
  method PushAll(h: HashFn, leaves: seq<Digest>) returns (r: Outcome, tree: Tree)
    ensures tree.Valid() && tree.hash == h
    ensures r == if |leaves| < MAX_LEAVES then Ok else Full
    ensures r == Ok ==> tree.pushed == leaves
  {
    hide Apex, Pow2, Forest, Descending;
    tree := new Tree(h);
    for i := 0 to |leaves|
      invariant tree.Valid() && tree.hash == h && fresh(tree) && fresh(tree.stack) && fresh(tree.level)
      invariant tree.pushed == leaves[..i] && i < MAX_LEAVES
    {
      r := tree.Push(leaves[i]);
      if r != Ok {
        return;
      }
    }
    assert leaves[..|leaves|] == leaves;
    r := Ok;
  }

  /** The apex over `leaves[lo..lo + n]`, by pushing them into a tree of their own. */
  method SubtreeRoot(h: HashFn, leaves: seq<Digest>, lo: nat, n: nat) returns (r: Outcome, apex: Digest)
    requires lo + n <= |leaves|
    ensures r == if n == 0 then Malformed else if n < MAX_LEAVES then Ok else Full
    ensures r == Ok ==> apex == Apex(h, leaves[lo..lo + n])
  {
    hide Apex, Pow2, Forest, Descending;
    apex := seq(32, _ => 0);
    if n == 0 {
      return Malformed, apex;
    }
    var tree: Tree;
    r, tree := PushAll(h, leaves[lo..lo + n]);
    if r != Ok {
      return;
    }
    r, apex := tree.ApexOf();
  }
}
