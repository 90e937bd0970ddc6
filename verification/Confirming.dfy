/** Whose confirmation is enough to confirm an admin's grant, said over the fields of the records of chain/revocation.c. */
module Confirming {
  import opened Collections
  import opened Votes
  import opened Verdicts
  import opened Admins

  // ---- the rule -------------------------------------------------------------------------------------

  /** The key is a root for this chain: its own first grantor, or a member whose act counts. */
  predicate RootFor(store: Store, ad: Admin, cf: Confirmation)
    requires |ad.chain| > 0
  {
    match store.roots
    case Pinned => cf.confirmer == ad.chain[0].grantor
    case RootSet(member, counts) => member(cf.confirmer) && counts(cf.confirmer, cf.act)
  }

  /** Granted by a root: nothing more is asked of the hop. */
  predicate RootsGrant(store: Store, ad: Admin, h: nat)
    requires h < |ad.chain|
  {
    match store.roots
    case Pinned => ad.chain[h].grantor == ad.chain[0].grantor
    case RootSet(member, _) => ad.chain[h].grantor == ad.chain[0].grantor || member(ad.chain[h].grantor)
  }

  /** A stored confirmation of the hop by somebody other than its grantor. */
  predicate Confirms(store: Store, ad: Admin, h: nat, cf: Confirmation)
    requires h < |ad.chain|
  {
    cf in store.confirms && cf.grant == ad.chain[h].hopId && cf.confirmer != ad.chain[h].grantor
  }

  /** `n` different keys of `who`, eligible and none the hop's grantor, each with a stored confirmation of it. */
  ghost predicate ConfirmedBy(store: Store, who: set<Key>, eligible: Option<set<Key>>, ad: Admin, h: nat, n: int)
    requires h < |ad.chain|
  {
    exists keys: set<Key> :: |keys| >= n && AllConfirm(store, keys, who, eligible, ad, h)
  }

  ghost predicate AllConfirm(store: Store, keys: set<Key>, who: set<Key>, eligible: Option<set<Key>>, ad: Admin, h: nat)
    requires h < |ad.chain|
  {
    forall k :: k in keys ==> k in who && (eligible.Some? ==> k in eligible.value) && ConfirmedByKey(store, ad, h, k)
  }

  ghost predicate ConfirmedByKey(store: Store, ad: Admin, h: nat, k: Key)
    requires h < |ad.chain|
  {
    exists cf :: Confirms(store, ad, h, cf) && cf.confirmer == k
  }

  ghost predicate HopConfirmed(store: Store, who: set<Key>, eligible: Option<set<Key>>, ad: Admin, h: nat)
    requires h < |ad.chain|
  {
    || RootsGrant(store, ad, h)
    || (exists cf :: Confirms(store, ad, h, cf) && RootFor(store, ad, cf))
    || ConfirmedBy(store, who, eligible, ad, h, store.quorum - 1)
  }

  /** The chain starts at a root that counts, where there is a set of them. */
  predicate RootedYet(store: Store, ad: Admin) {
    match store.roots
    case Pinned => true
    case RootSet(_, counts) => |ad.chain| == 0 || counts(ad.chain[0].grantor, ad.firstAct)
  }

  lemma StandsMeans(store: Store, who: set<Key>, eligible: Option<set<Key>>, ad: Admin, h: nat)
    requires h < |ad.chain| && store.quorum > 1
    ensures HopStands(store, who, eligible, ad, h) <==> HopConfirmed(store, who, eligible, ad, h)
  {
    var c := Confirmers(store, store.confirms, who, eligible, ad, h);
    forall cf: Confirmation
      ensures cf in store.confirms && ByRootAt(store, ad, h, cf) <==> Confirms(store, ad, h, cf) && RootFor(store, ad, cf)
    {
    }
    if |c| >= store.quorum - 1 {
      forall k | k in c
        ensures k in who && (eligible.Some? ==> k in eligible.value) && ConfirmedByKey(store, ad, h, k)
      {
        var cf :| cf in store.confirms && ByAdminAt(store, who, eligible, ad, h, cf) && cf.confirmer == k;
        assert Confirms(store, ad, h, cf);
      }
      assert AllConfirm(store, c, who, eligible, ad, h);
    }
    if ConfirmedBy(store, who, eligible, ad, h, store.quorum - 1) &&
       !exists cf :: Confirms(store, ad, h, cf) && RootFor(store, ad, cf) {
      var keys: set<Key> :| |keys| >= store.quorum - 1 && AllConfirm(store, keys, who, eligible, ad, h);
      forall k | k in keys
        ensures k in c
      {
        assert ConfirmedByKey(store, ad, h, k);
        var cf :| Confirms(store, ad, h, cf) && cf.confirmer == k;
        assert ByAdminAt(store, who, eligible, ad, h, cf);
      }
      SubsetSize(keys, c);
    }
  }

  lemma JustifiedMeans(store: Store, who: set<Key>, eligible: Option<set<Key>>, ad: Admin)
    requires store.quorum > 1
    ensures Justified(store, who, eligible, ad) <==>
            RootedYet(store, ad) && forall h :: 1 <= h < |ad.chain| ==> HopConfirmed(store, who, eligible, ad, h)
  {
    hide HopStands, HopConfirmed;
    forall h | 1 <= h < |ad.chain|
      ensures HopStands(store, who, eligible, ad, h) <==> HopConfirmed(store, who, eligible, ad, h)
    {
      StandsMeans(store, who, eligible, ad, h);
    }
  }

  /** A least confirmed admin is justified by the others. */
  lemma LeastIsJustified(store: Store, eligible: Option<set<Key>>, ad: Admin)
    requires OneRowPerKey(store.admins) && ad in store.admins && ad.key in LeastConfirmed(store, eligible)
    ensures Justified(store, LeastConfirmed(store, eligible), eligible, ad)
  {
    hide Justified;
    var least := LeastConfirmed(store, eligible);
    if !Justified(store, least, eligible, ad) {
      LeastIsClosed(store, eligible);
      forall b <- store.admins | Justified(store, least - {ad.key}, eligible, b)
        ensures b.key in least - {ad.key}
      {
        JustifiedMonotone(store, least - {ad.key}, eligible, least, eligible, b);
        if b.key == ad.key {
          SameRow(store.admins, ad, b);
        }
      }
    }
  }

  lemma SameRow(admins: seq<Admin>, a: Admin, b: Admin)
    requires OneRowPerKey(admins) && a in admins && b in admins && a.key == b.key
    ensures a == b
  {
  }

  /** Who is confirmed, both ways: with confirmations kept and k > 1, an admin whose chain starts at a root that counts and whose
      every later hop was granted by a root, or confirmed by a root, or by k - 1 different confirmed keys other than its
      grantor. */
  lemma ConfirmedIff(store: Store, eligible: Option<set<Key>>, ad: Admin)
    requires OneRowPerKey(store.admins) && ad in store.admins && store.keeps && store.quorum > 1
    ensures ad.key in Confirmed(store, eligible) <==>
            RootedYet(store, ad) &&
            forall h :: 1 <= h < |ad.chain| ==> HopConfirmed(store, Confirmed(store, eligible), eligible, ad, h)
  {
    hide LeastConfirmed, Justified, HopConfirmed;
    JustifiedMeans(store, LeastConfirmed(store, eligible), eligible, ad);
    if ad.key in LeastConfirmed(store, eligible) {
      LeastIsJustified(store, eligible, ad);
    } else {
      LeastIsClosed(store, eligible);
    }
  }

  /** With none kept, or k = 1, the chain need only start at a root that counts. */
  lemma UnconfirmedIff(store: Store, eligible: Option<set<Key>>, ad: Admin)
    requires OneRowPerKey(store.admins) && ad in store.admins && (!store.keeps || store.quorum <= 1)
    ensures ad.key in Confirmed(store, eligible) <==> RootedYet(store, ad)
  {
    if b :| b in store.admins && Rooted(store, b) && b.key == ad.key {
      SameRow(store.admins, ad, b);
    }
  }

  // ---- a grantor's own confirmations -----------------------------------------------------------------------

  /** The confirmation is of nothing but its confirmer's own grants. */
  ghost predicate OwnGrant(store: Store, cf: Confirmation) {
    forall ad, h :: ad in store.admins && 0 <= h < |ad.chain| && ad.chain[h].hopId == cf.grant ==> ad.chain[h].grantor == cf.confirmer
  }

  /** `t` is `s` without some confirmations, each of its confirmer's own grants. */
  ghost predicate WithoutOwn(s: Store, t: Store) {
    && t == s.(confirms := t.confirms)
    && (forall cf :: cf in t.confirms ==> cf in s.confirms)
    && (forall cf :: cf in s.confirms && !OwnGrant(s, cf) ==> cf in t.confirms)
  }

  lemma OwnJustifies(s: Store, t: Store, u: set<Key>, eligible: Option<set<Key>>, ad: Admin)
    requires WithoutOwn(s, t) && ad in s.admins && s.quorum > 1
    ensures Justified(s, u, eligible, ad) == Justified(t, u, eligible, ad)
  {
    hide OwnGrant, Justified;
    JustifiedMeans(s, u, eligible, ad);
    JustifiedMeans(t, u, eligible, ad);
    forall h | 1 <= h < |ad.chain|
      ensures HopConfirmed(s, u, eligible, ad, h) == HopConfirmed(t, u, eligible, ad, h)
    {
      forall cf: Confirmation
        ensures Confirms(s, ad, h, cf) <==> Confirms(t, ad, h, cf)
      {
        NotOwn(s, ad, h, cf);
      }
      forall k: Key
        ensures ConfirmedByKey(s, ad, h, k) == ConfirmedByKey(t, ad, h, k)
      {
      }
    }
  }

  lemma NotOwn(s: Store, ad: Admin, h: nat, cf: Confirmation)
    requires ad in s.admins && h < |ad.chain|
    ensures Confirms(s, ad, h, cf) ==> !OwnGrant(s, cf)
  {
  }

  /** A grantor's confirmations of its own grants confirm nobody, and change nobody's standing. */
  lemma OwnConfirmationsIgnored(s: Store, t: Store, eligible: Option<set<Key>>)
    requires WithoutOwn(s, t)
    ensures Confirmed(s, eligible) == Confirmed(t, eligible) && Standing(s) == Standing(t)
  {
    hide Justified, HopRevoked, OwnGrant, Confirmed;
    OwnConfirmed(s, t, eligible);
    OwnConfirmed(s, t, None);
    var c := Confirmed(s, None);
    forall ad: Admin
      ensures AdminRevoked(s, ad, c) == AdminRevoked(t, ad, c)
    {
      forall h | 0 <= h < |ad.chain|
        ensures HopRevoked(s, Grantors(ad.chain), ad.chain[h].grantee, h, s.adminCap, c) ==
                HopRevoked(t, Grantors(ad.chain), ad.chain[h].grantee, h, t.adminCap, c)
      {
        ConfirmsUnread(s, t, Grantors(ad.chain), ad.chain[h].grantee, h, s.adminCap, c);
      }
    }
    assert FirstStratum(s) == FirstStratum(t);
    OwnConfirmed(s, t, Some(FirstStratum(s)));
  }

  lemma ConfirmsUnread(s: Store, t: Store, grantors: seq<Key>, grantee: Key, i: nat, cap: Cap, standing: set<Key>)
    requires t == s.(confirms := t.confirms) && i < |grantors|
    ensures HopRevoked(s, grantors, grantee, i, cap, standing) == HopRevoked(t, grantors, grantee, i, cap, standing)
  {
    hide Judge;
  }

  lemma OwnConfirmed(s: Store, t: Store, eligible: Option<set<Key>>)
    requires WithoutOwn(s, t)
    ensures Confirmed(s, eligible) == Confirmed(t, eligible)
  {
    hide Justified, OwnGrant;
    if s.quorum > 1 {
      forall u: set<Key>
        ensures ClosedUnder(s, eligible, u) == ClosedUnder(t, eligible, u)
      {
        forall ad | ad in s.admins
          ensures Justified(s, u, eligible, ad) == Justified(t, u, eligible, ad)
        {
          OwnJustifies(s, t, u, eligible, ad);
        }
      }
    }
    assert forall ad: Admin :: Rooted(s, ad) == Rooted(t, ad);
  }

  // ---- who stands ----------------------------------------------------------------------------------------------

  /** An admin stands exactly when it is confirmed, none of its chain's hops is revoked by the confirmed admins' votes, and those of
      whom that is true still confirm it. */
  lemma StandingIff(store: Store, ad: Admin)
    requires OneRowPerKey(store.admins) && ad in store.admins
    ensures var all := Confirmed(store, None);
            var unrevoked := set b | b in store.admins && b.key in all && (forall h :: 0 <= h < |b.chain| ==>
                               !HopRevoked(store, Grantors(b.chain), b.chain[h].grantee, h, store.adminCap, all)) :: b.key;
            ad.key in Standing(store) <==>
              && ad.key in all && ad.key in Confirmed(store, Some(unrevoked))
              && forall h :: 0 <= h < |ad.chain| ==>
                   !HopRevoked(store, Grantors(ad.chain), ad.chain[h].grantee, h, store.adminCap, all)
  {
    hide Confirmed, HopRevoked;
    var all := Confirmed(store, None);
    var unrevoked := set b | b in store.admins && b.key in all && (forall h :: 0 <= h < |b.chain| ==>
                       !HopRevoked(store, Grantors(b.chain), b.chain[h].grantee, h, store.adminCap, all)) :: b.key;
    assert unrevoked == FirstStratum(store);
    if b :| b in store.admins && b.key == ad.key {
      forall c | c in store.admins && c.key == ad.key
        ensures c == ad
      {
        SameRow(store.admins, c, ad);
      }
    }
  }
}
