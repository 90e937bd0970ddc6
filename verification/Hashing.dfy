/** Hashes over bytes and the three inputs a blob's tree gives one: a node, and the finalised root. */
module Hashing {
  import opened ByteOrder

  type Digest = Id32
  type HashFn = Bytes -> Digest

  const NODE_PREFIX: Octet := 0x01
  /** "fuzznet-root-v1", NUL-terminated: sixteen bytes. */
  const ROOT_LABEL: Bytes := [102, 117, 122, 122, 110, 101, 116, 45, 114, 111, 111, 116, 45, 118, 49, 0]

  function Pow2(n: nat): (r: nat)
    ensures r > 0
  {
    if n == 0 then 1 else 2 * Pow2(n - 1)
  }

  /** `n` big-endian in `len` bytes. */
  function BigEndian(n: nat, len: nat): (s: Bytes)
    ensures |s| == len
  {
    if len == 0 then [] else BigEndian(n / 256, len - 1) + [n % 256]
  }

  function Power256(len: nat): (r: nat) {
    if len == 0 then 1 else 256 * Power256(len - 1)
  }

  lemma {:induction false} BigEndianInjective(m: nat, n: nat, len: nat)
    requires m < Power256(len) && n < Power256(len)
    requires BigEndian(m, len) == BigEndian(n, len)
    ensures m == n
  {
    if len > 0 {
      var s, t := BigEndian(m / 256, len - 1), BigEndian(n / 256, len - 1);
      assert (s + [m % 256])[..len - 1] == s && (t + [n % 256])[..len - 1] == t;
      assert (s + [m % 256])[len - 1] == m % 256;
      BigEndianInjective(m / 256, n / 256, len - 1);
    }
  }

  function NodeInput(left: Digest, right: Digest): (s: Bytes) {
    [NODE_PREFIX] + left + right
  }

  /** Its layout: the prefix, the left child and then the right one. */
  lemma NodeLayout(left: Digest, right: Digest)
    ensures var s := NodeInput(left, right);
            |s| == 65 && s[0] == 1 && s[1..33] == left && s[33..65] == right
  {
  }

  /** The hash of an interior node. */
  function Node(h: HashFn, left: Digest, right: Digest): (r: Digest) {
    h(NodeInput(left, right))
  }

  function RootInput(apex: Digest, leaves: nat): (s: Bytes) {
    ROOT_LABEL + BigEndian(leaves, 8) + apex
  }

  /** Its layout: the label, the count in eight bytes, the apex. */
  lemma RootLayout(apex: Digest, leaves: nat)
    ensures var s := RootInput(apex, leaves);
            |s| == 56 && s[..16] == ROOT_LABEL && s[16..24] == BigEndian(leaves, 8) && s[24..56] == apex
  {
  }

  /** The root: the apex with the leaf count bound in. */
  function Finalise(h: HashFn, apex: Digest, leaves: nat): (r: Digest) {
    h(RootInput(apex, leaves))
  }

  /** Two different inputs with one hash. */
  ghost predicate Collision(h: HashFn, x: Bytes, y: Bytes) {
    x != y && h(x) == h(y)
  }

  /** Two nodes with one hash have the same children, or show a collision. */
  lemma NodeBinds(h: HashFn, l: Digest, r: Digest, l': Digest, r': Digest)
    requires Node(h, l, r) == Node(h, l', r')
    ensures (l == l' && r == r') || Collision(h, NodeInput(l, r), NodeInput(l', r'))
  {
    if NodeInput(l, r) == NodeInput(l', r') {
      assert NodeInput(l, r)[1..33] == l && NodeInput(l', r')[1..33] == l';
      assert NodeInput(l, r)[33..] == r && NodeInput(l', r')[33..] == r';
    }
  }

  /** Two roots that are equal are over the same apex and the same count, or show a collision. */
  lemma RootBinds(h: HashFn, a: Digest, m: nat, b: Digest, n: nat)
    requires m < Power256(8) && n < Power256(8)
    requires Finalise(h, a, m) == Finalise(h, b, n)
    ensures (a == b && m == n) || Collision(h, RootInput(a, m), RootInput(b, n))
  {
    var x, y := RootInput(a, m), RootInput(b, n);
    if x == y {
      assert x[16..24] == BigEndian(m, 8) && y[16..24] == BigEndian(n, 8);
      assert x[24..] == a && y[24..] == b;
      BigEndianInjective(m, n, 8);
    }
  }
}
