/** Byte strings and the order memcmp puts them in. */
module ByteOrder {

  type Octet = x: nat | x < 256

  type Bytes = seq<Octet>

  const ID_LEN: nat := 32

  /** Keys, roots, entities and issuers: all 32 bytes. */
  type Id32 = b: Bytes | |b| == ID_LEN witness seq(32, _ => 0)

  lemma SubSlice(s: Bytes, a: nat, b: nat, c: nat, d: nat)
    requires a <= b <= |s| && c <= d <= b - a
    ensures s[a..b][c..d] == s[a + c..a + d]
  {
    var l, r := s[a..b][c..d], s[a + c..a + d];
    assert |l| == |r|;
    forall k | 0 <= k < |l|
      ensures l[k] == r[k]
    {
    }
  }

  /** memcmp(a, b, n) < 0, for strings of the same length. */
  predicate Before(a: Bytes, b: Bytes) {
    |a| > 0 && |b| > 0 && (a[0] < b[0] || (a[0] == b[0] && Before(a[1..], b[1..])))
  }

  /** The first byte that differs decides. */
  lemma {:induction false} BeforeMeans(a: Bytes, b: Bytes)
    requires |a| == |b|
    ensures Before(a, b) <==> exists i :: 0 <= i < |a| && a[i] < b[i] && a[..i] == b[..i]
  {
    if |a| > 0 {
      BeforeMeans(a[1..], b[1..]);
      assert a[..0] == b[..0];
      if a[0] == b[0] {
        forall i | 0 <= i < |a| - 1
          ensures a[1..][..i] == b[1..][..i] <==> a[..i + 1] == b[..i + 1]
        {
          assert a[..i + 1] == [a[0]] + a[1..][..i] && b[..i + 1] == [b[0]] + b[1..][..i];
          assert a[..i + 1][1..] == a[1..][..i] && b[..i + 1][1..] == b[1..][..i];
        }
        if i :| 0 <= i < |a| && a[i] < b[i] && a[..i] == b[..i] {
          assert a[1..][i - 1] < b[1..][i - 1];
        }
        if i :| 0 <= i < |a| - 1 && a[1..][i] < b[1..][i] && a[1..][..i] == b[1..][..i] {
          assert a[i + 1] < b[i + 1];
        }
      } else {
        forall i | 0 < i < |a|
          ensures a[..i] != b[..i]
        {
          assert a[..i][0] == a[0] && b[..i][0] == b[0];
        }
      }
    }
  }

  /** A strict total order. */
  lemma Irreflexive(a: Bytes)
    ensures !Before(a, a)
  {
  }

  lemma Transitive(a: Bytes, b: Bytes, c: Bytes)
    requires Before(a, b) && Before(b, c)
    ensures Before(a, c)
  {
  }

  lemma Asymmetric(a: Bytes, b: Bytes)
    requires Before(a, b)
    ensures !Before(b, a) && a != b
  {
    Irreflexive(a);
    if Before(b, a) {
      Transitive(a, b, a);
    }
  }

  lemma {:induction false} Trichotomy(a: Bytes, b: Bytes)
    requires |a| == |b|
    ensures a == b || Before(a, b) || Before(b, a)
  {
    if |a| > 0 && a[0] == b[0] {
      Trichotomy(a[1..], b[1..]);
      assert a == [a[0]] + a[1..] && b == [b[0]] + b[1..];
    }
  }

  lemma BeforeNotAfter(a: Bytes, b: Bytes, c: Bytes)
    requires |b| == |c| && Before(a, b) && !Before(c, b)
    ensures Before(a, c)
  {
    Trichotomy(b, c);
    if Before(b, c) {
      Transitive(a, b, c);
    }
  }

  lemma NotAfterTransitive(a: Bytes, b: Bytes, c: Bytes)
    requires |a| == |b| == |c| && !Before(b, a) && !Before(c, b)
    ensures !Before(c, a)
  {
    if Before(c, a) {
      BeforeNotAfter(c, a, b);
    }
  }

  ghost predicate Ascending(s: seq<Bytes>) {
    forall i :: 0 < i < |s| ==> Before(s[i - 1], s[i])
  }

  ghost predicate NeverFalls(s: seq<Id32>) {
    forall i :: 0 < i < |s| ==> !Before(s[i], s[i - 1])
  }

  lemma {:induction false} AscendingPair(s: seq<Bytes>, i: nat, j: nat)
    requires Ascending(s) && i < j < |s|
    ensures Before(s[i], s[j])
    decreases j
  {
    if i < j - 1 {
      AscendingPair(s, i, j - 1);
      Transitive(s[i], s[j - 1], s[j]);
    }
  }

  lemma {:induction false} NeverFallsPair(s: seq<Id32>, i: nat, j: nat)
    requires NeverFalls(s) && i <= j < |s|
    ensures !Before(s[j], s[i])
    decreases j
  {
    if i == j {
      Irreflexive(s[i]);
    } else {
      NeverFallsPair(s, i, j - 1);
      NotAfterTransitive(s[i], s[j - 1], s[j]);
    }
  }

  lemma AscendingDistinct(s: seq<Bytes>, i: nat, j: nat)
    requires Ascending(s) && i < |s| && j < |s| && s[i] == s[j]
    ensures i == j
  {
    if i < j {
      AscendingPair(s, i, j);
      Irreflexive(s[i]);
    } else if j < i {
      AscendingPair(s, j, i);
      Irreflexive(s[i]);
    }
  }

  /** A set has one ascending listing. */
  lemma {:induction false} AscendingUnique(s: seq<Bytes>, t: seq<Bytes>)
    requires Ascending(s) && Ascending(t) && forall x :: x in s <==> x in t
    ensures s == t
    decreases |s|
  {
    assert |t| > 0 ==> t[0] in t;
    if |s| > 0 {
      assert s[|s| - 1] in s;
      var i :| 0 <= i < |t| && t[i] == s[|s| - 1];
      var n, m := |s| - 1, |t| - 1;
      if i < m {
        AscendingPair(t, i, m);
        assert t[m] in t;
        var j :| 0 <= j < |s| && s[j] == t[m];
        Irreflexive(t[m]);
        if j < n {
          AscendingPair(s, j, n);
          Asymmetric(s[j], s[n]);
        }
      }
      var a, b := s[..n], t[..m];
      forall x: Bytes
        ensures x in a <==> x in b
      {
        PrefixOf(s, x);
        PrefixOf(t, x);
      }
      AscendingUnique(a, b);
      assert s == a + [s[n]] && t == b + [t[m]];
    }
  }

  lemma PrefixOf(s: seq<Bytes>, x: Bytes)
    requires Ascending(s) && |s| > 0
    ensures x in s[..|s| - 1] <==> x in s && x != s[|s| - 1]
  {
    var n := |s| - 1;
    assert s == s[..n] + [s[n]];
    if x in s[..n] {
      var i :| 0 <= i < n && s[i] == x;
      AscendingPair(s, i, n);
      Irreflexive(x);
    }
  }

  // ---- insertion -------------------------------------------------------------------------------

  /** `x` put in from the end, past everything after it. */
  function Inserted(s: seq<Id32>, x: Id32): (r: seq<Id32>)
    ensures |r| == |s| + 1
  {
    if |s| == 0 || !Before(x, s[|s| - 1]) then s + [x]
    else Inserted(s[..|s| - 1], x) + [s[|s| - 1]]
  }

  /** It lands before the run of elements after it that ends the sequence. */
  lemma {:induction false} InsertedAt(s: seq<Id32>, at: nat, x: Id32)
    requires at <= |s| && (at > 0 ==> !Before(x, s[at - 1])) && forall k :: at <= k < |s| ==> Before(x, s[k])
    ensures Inserted(s, x) == s[..at] + [x] + s[at..]
    decreases |s|
  {
    if at < |s| {
      var n := |s| - 1;
      InsertedAt(s[..n], at, x);
      assert s[..n][..at] == s[..at] && s[..n][at..] + [s[n]] == s[at..];
    }
  }

  lemma {:induction false} InsertedMembers(s: seq<Id32>, x: Id32)
    ensures forall y :: y in Inserted(s, x) <==> y in s || y == x
  {
    if |s| > 0 {
      assert s == s[..|s| - 1] + [s[|s| - 1]];
      InsertedMembers(s[..|s| - 1], x);
    }
  }

  lemma {:induction false} InsertedAscends(s: seq<Id32>, x: Id32)
    requires Ascending(s) && x !in s
    ensures Ascending(Inserted(s, x))
    ensures Inserted(s, x)[|s|] == x || (|s| > 0 && Inserted(s, x)[|s|] == s[|s| - 1])
  {
    if |s| > 0 {
      var n := |s| - 1;
      var last := s[n];
      assert last in s;
      Trichotomy(x, last);
      if Before(x, last) {
        InsertedAscends(s[..n], x);
        if n > 0 {
          assert Before(s[n - 1], last);
        }
      }
    }
  }
}
