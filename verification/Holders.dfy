/** Who holds an entity, catalog/catalog.c: an exact count through a bounded buffer. */
module Holders {
  import opened ByteOrder

  datatype Capability = NoCapability | Granted | Holder

  datatype Assertion = Assertion(entity: Bytes, issuer: Bytes, live: bool, capability: Capability)

  /** A listed issuer and how many of its assertions were read. */
  datatype Listed = Listed(issuer: Bytes, assertions: nat)

  /** Only a live holder's assertion is a holding. */
  predicate Holds(a: Assertion, entity: Bytes) {
    a.live && a.capability == Holder && a.entity == entity
  }

  ghost function HoldersOf(s: seq<Assertion>, entity: Bytes): (h: set<Bytes>) {
    set i | 0 <= i < |s| && Holds(s[i], entity) :: s[i].issuer
  }

  /** A holder is the issuer of a live assertion, in a holder's capability, about the entity. */
  lemma HolderMeans(s: seq<Assertion>, entity: Bytes, x: Bytes)
    ensures x in HoldersOf(s, entity) <==>
            exists i :: 0 <= i < |s| && s[i].live && s[i].capability == Holder && s[i].entity == entity && s[i].issuer == x
  {
    if i :| 0 <= i < |s| && s[i].live && s[i].capability == Holder && s[i].entity == entity && s[i].issuer == x {
      assert Holds(s[i], entity);
    }
  }

  /** The distinct holders in the order they are first met. */
  function Distinct(s: seq<Assertion>, entity: Bytes): (d: seq<Bytes>) {
    if |s| == 0 then []
    else
      var a, before := s[|s| - 1], Distinct(s[..|s| - 1], entity);
      if Holds(a, entity) && a.issuer !in before then before + [a.issuer] else before
  }

  /** How many holdings of the entity an issuer asserts. */
  function Holdings(s: seq<Assertion>, entity: Bytes, issuer: Bytes): (n: nat) {
    if |s| == 0 then 0
    else
      Holdings(s[..|s| - 1], entity, issuer) +
      if Holds(s[|s| - 1], entity) && s[|s| - 1].issuer == issuer then 1 else 0
  }

  lemma {:induction false} DistinctAre(s: seq<Assertion>, entity: Bytes)
    ensures forall x :: x in Distinct(s, entity) <==> exists i :: 0 <= i < |s| && Holds(s[i], entity) && s[i].issuer == x
    ensures forall i, j :: 0 <= i < j < |Distinct(s, entity)| ==> Distinct(s, entity)[i] != Distinct(s, entity)[j]
  {
    if |s| > 0 {
      var n := |s| - 1;
      DistinctAre(s[..n], entity);
      assert forall i :: 0 <= i < n ==> s[..n][i] == s[i];
      if Holds(s[n], entity) {
        assert exists i :: 0 <= i < |s| && Holds(s[i], entity) && s[i].issuer == s[n].issuer;
      }
    }
  }

  lemma {:induction false} CountDistinct(d: seq<Bytes>, h: set<Bytes>)
    requires forall x :: x in d <==> x in h
    requires forall i, j :: 0 <= i < j < |d| ==> d[i] != d[j]
    ensures |d| == |h|
    decreases |d|
  {
    if |d| == 0 {
      assert h == {};
    } else {
      var n := |d| - 1;
      assert d == d[..n] + [d[n]];
      CountDistinct(d[..n], h - {d[n]});
    }
  }

  /** The listing's length is the number of holders. */
  lemma DistinctCount(s: seq<Assertion>, entity: Bytes)
    ensures |Distinct(s, entity)| == |HoldersOf(s, entity)|
    ensures forall x :: x in Distinct(s, entity) <==> x in HoldersOf(s, entity)
  {
    DistinctAre(s, entity);
    CountDistinct(Distinct(s, entity), HoldersOf(s, entity));
  }

  lemma {:induction false} NoHoldings(s: seq<Assertion>, entity: Bytes, issuer: Bytes)
    requires issuer !in Distinct(s, entity)
    ensures Holdings(s, entity, issuer) == 0
  {
    if |s| > 0 {
      NoHoldings(s[..|s| - 1], entity, issuer);
    }
  }

  function Least(a: nat, b: nat): (m: nat) { if a < b then a else b }

  /** What the buffer holds: as many distinct holders as fit, in order, with what each asserted. */
  ghost predicate Listing(s: seq<Assertion>, entity: Bytes, out: seq<Listed>, w: nat, d: nat) {
    && w <= |out| && w == Least(|out|, |Distinct(s, entity)|) && w + d == |Distinct(s, entity)|
    && forall j :: 0 <= j < w ==> out[j] == Listed(Distinct(s, entity)[j], Holdings(s, entity, Distinct(s, entity)[j]))
  }

  method IndexOf(out: array<Listed>, w: nat, issuer: Bytes) returns (j: nat)
    requires w <= out.Length
    ensures j <= w && (j < w ==> out[j].issuer == issuer) && forall k :: 0 <= k < j ==> out[k].issuer != issuer
  {
    j := 0;
    while j < w && out[j].issuer != issuer
      invariant j <= w && forall k :: 0 <= k < j ==> out[k].issuer != issuer
    {
      j := j + 1;
    }
  }

  method HeldEarlier(s: seq<Assertion>, i: nat, entity: Bytes, issuer: Bytes) returns (yes: bool)
    requires i <= |s|
    ensures yes <==> issuer in Distinct(s[..i], entity)
  {
    DistinctAre(s[..i], entity);
    for j := 0 to i
      invariant forall k :: 0 <= k < j ==> !(Holds(s[k], entity) && s[k].issuer == issuer)
    {
      if Holds(s[j], entity) && s[j].issuer == issuer {
        assert s[..i][j] == s[j];
        return true;
      }
    }
    yes := false;
  }

  /** Lists the holders of an entity into `out`: `w` written and `d` that did not fit. Their sum is the exact number of
      holders. */
  method ListHolders(s: seq<Assertion>, entity: Bytes, out: array<Listed>) returns (w: nat, d: nat)
    modifies out
    ensures Listing(s, entity, out[..], w, d) && w + d == |HoldersOf(s, entity)|
  {
    w, d := 0, 0;
    for i := 0 to |s|
      invariant Listing(s[..i], entity, out[..], w, d)
    {
      w, d := ListOne(s, entity, i, out, w, d);
    }
    assert s[..|s|] == s;
    DistinctCount(s, entity);
  }

  method ListOne(s: seq<Assertion>, entity: Bytes, i: nat, out: array<Listed>, w0: nat, d0: nat) returns (w: nat, d: nat)
    requires i < |s| && Listing(s[..i], entity, out[..], w0, d0)
    modifies out
    ensures Listing(s[..i + 1], entity, out[..], w, d)
  {
    w, d := w0, d0;
    var a := s[i];
    ghost var was, before := out[..], Distinct(s[..i], entity);
    assert s[..i + 1][..i] == s[..i];
    if !Holds(a, entity) {
      return;
    }
    DistinctAre(s[..i], entity);
    var j := IndexOf(out, w, a.issuer);
    if j < w {
      out[j] := Listed(out[j].issuer, out[j].assertions + 1);
      assert before[j] == a.issuer;
      return;
    }
    if w < out.Length {
      NoHoldings(s[..i], entity, a.issuer);
      out[w] := Listed(a.issuer, 1);
      w := w + 1;
    } else {
      var earlier := HeldEarlier(s, i, entity, a.issuer);
      if !earlier {
        d := d + 1;
      }
    }
  }
}
