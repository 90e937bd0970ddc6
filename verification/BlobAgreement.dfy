/** The four implementations together: a root from the streaming builder, a proof from the level store or the array,
    and the verifier's verdict. */
module BlobAgreement {
  import opened Hashing
  import opened MerkleTree
  import opened Spans
  import opened BlobProofs
  import TreeBuilder
  import Levels

  /** The streaming builder's root over all the leaves. */
  method StreamRoot(h: HashFn, leaves: seq<Digest>) returns (root: Digest)
    requires 0 < |leaves| < MAX_LEAVES
    ensures root == Finalise(h, Apex(h, leaves), |leaves|)
  {
    hide Apex, Finalise, Pow2, TreeBuilder.Forest, TreeBuilder.Descending;
    var r, tree := TreeBuilder.PushAll(h, leaves);
    r, root := tree.Root();
  }

  /** The level store with every leaf pushed. */
  method Store(h: HashFn, leaves: seq<Digest>) returns (builder: Levels.Builder)
    requires 0 < |leaves| < MAX_LEAVES
    ensures builder.Valid() && builder.hash == h && builder.seen == leaves && builder.pushed == builder.leaves == |leaves|
  {
    hide Apex, Pow2, Levels.Stored, Levels.Waiting;
    builder := new Levels.Builder(h, |leaves|);
    for i := 0 to |leaves|
      invariant builder.Valid() && builder.hash == h && builder.leaves == |leaves| && builder.seen == leaves[..i]
      invariant fresh(builder) && fresh(builder.pending)
    {
      var r := builder.Push(leaves[i]);
    }
    assert leaves[..|leaves|] == leaves;
  }

  /** Every canonical span of every blob has one proof, both providers give it, and it verifies. */
  method Agree(h: HashFn, leaves: seq<Digest>, first: nat, count: nat) returns (stored: seq<Digest>, built: seq<Digest>, verdict: Outcome)
    requires 0 < |leaves| < MAX_LEAVES && (first, count) in Nodes(0, |leaves|)
    ensures stored == built && verdict == Ok
  {
    hide Apex, Finalise, Pow2, Walk, Nodes, Siblings, Climb, Levels.Stored, Levels.Waiting;
    NodesWithin(0, |leaves|, first, count);
    CanonicalIsNode(0, |leaves|, first, count);
    WalkDepth(|leaves|, first, count, MAX_DEPTH);
    var root := StreamRoot(h, leaves);
    var builder := Store(h, leaves);
    var r, e;
    r, stored := Levels.SpanProof(builder, first, count, 32 * MAX_DEPTH);
    e, built := SpanProofBuild(h, leaves, first, count, 32 * MAX_DEPTH);
    Complete(h, leaves, first, count);
    var f, span := TreeBuilder.SubtreeRoot(h, leaves, first, count);
    verdict := SpanProofVerify(h, span, first, count, |leaves|, stored, root);
  }
}
