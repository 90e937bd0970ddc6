/** The shape of a blob's tree, section 2.1 of RFC 6962: the left child over the largest power of two
    strictly below the number of leaves. */
module MerkleTree {
  import opened Hashing

  /** How the operations on a blob's tree end. */
  datatype Outcome = Ok | Malformed | Shape | Proof | Full | Failed

  const MAX_DEPTH: nat := 40
  /** The bound the source names FZN_BLOB_MAX_LEAVES. */
  ghost const MAX_LEAVES: nat := Pow2(MAX_DEPTH)

  lemma {:induction false} Pow2Monotone(m: nat, n: nat)
    ensures m <= n ==> Pow2(m) <= Pow2(n)
    ensures m < n ==> 2 * Pow2(m) <= Pow2(n)
  {
    if m < n {
      Pow2Monotone(m, n - 1);
    }
  }

  ghost predicate IsPow2(k: nat) {
    exists e: nat :: k == Pow2(e)
  }

  /** The size of the left subtree over `n` leaves. */
  function SplitAt(n: nat): (k: nat)
    requires n > 1
    ensures 0 < k < n <= 2 * k
    ensures IsPow2(k)
  {
    if n == 2 then assert Pow2(0) == 1; 1
    else
      var j := SplitAt((n + 1) / 2);
      assert IsPow2(2 * j) by {
        var e: nat :| j == Pow2(e);
        assert 2 * j == Pow2(e + 1);
      }
      2 * j
  }

  /** No other power of two is one. */
  lemma SplitUnique(n: nat, k: nat)
    requires n > 1 && IsPow2(k) && k < n <= 2 * k
    ensures SplitAt(n) == k
  {
    var j := SplitAt(n);
    var e: nat :| k == Pow2(e);
    var f: nat :| j == Pow2(f);
    Pow2Monotone(e, f);
    Pow2Monotone(f, e);
  }

  method SplitLoop(n: nat) returns (k: nat)
    requires n > 1
    ensures k == SplitAt(n)
  {
    k := 1;
    assert Pow2(0) == 1;
    while 2 * k < n
      invariant 0 < k < n && IsPow2(k)
      decreases n - k
    {
      assert IsPow2(2 * k) by {
        var e: nat :| k == Pow2(e);
        assert 2 * k == Pow2(e + 1);
      }
      k := 2 * k;
    }
    SplitUnique(n, k);
  }

  /** The tree hash of RFC 6962 over leaf hashes. */
  function Apex(h: HashFn, leaves: seq<Digest>): (r: Digest)
    requires |leaves| > 0
    decreases |leaves|
  {
    if |leaves| == 1 then leaves[0]
    else
      var k := SplitAt(|leaves|);
      Node(h, Apex(h, leaves[..k]), Apex(h, leaves[k..]))
  }

  /** A full left side and no more on the right: one node over the two. */
  lemma ApexJoin(h: HashFn, left: seq<Digest>, right: seq<Digest>)
    requires IsPow2(|left|) && 0 < |right| <= |left|
    ensures Apex(h, left + right) == Node(h, Apex(h, left), Apex(h, right))
  {
    SplitUnique(|left + right|, |left|);
    assert (left + right)[..|left|] == left && (left + right)[|left|..] == right;
  }

  /** The tree hash spelled out: of one leaf the leaf itself, of more the hash of the prefix, the left part's and the right part's,
      the left part being the largest power of two that leaves something over. */
  lemma ApexMeans(h: HashFn, leaves: seq<Digest>, k: nat)
    requires |leaves| > 0
    ensures |leaves| == 1 ==> Apex(h, leaves) == leaves[0]
    ensures IsPow2(k) && k < |leaves| <= 2 * k ==> Apex(h, leaves) == h([1] + Apex(h, leaves[..k]) + Apex(h, leaves[k..]))
  {
    if |leaves| > 1 && IsPow2(k) && k < |leaves| <= 2 * k {
      SplitUnique(|leaves|, k);
    }
  }
}
