/** Which admins' grants are confirmed and which admins stand, chain/revocation.c. */
module Admins {
  import opened Collections
  import opened Votes
  import opened Verdicts

  datatype Link = Link(grantor: Key, grantee: Key, hopId: Id)
  datatype Admin = Admin(key: Key, chain: seq<Link>, firstAct: Id)
  datatype Confirmation = Confirmation(confirmer: Key, grant: Id, act: Id)

  /** The most hops a chain may have. */
  const MAX_HOPS: nat := 8

  /** The store as a reading of it sees it: `keeps` whether confirmations are kept at all. */
  datatype Store = Store(entries: seq<Entry>, quorum: nat, hasAdmin: bool, adminCap: Cap, admins: seq<Admin>,
                         confirms: seq<Confirmation>, keeps: bool, roots: Roots)

  /** A quorum of 0 reads as 1. */
  function Quorum(store: Store): (q: nat)
    ensures q > 0
  {
    if store.quorum == 0 then 1 else store.quorum
  }

  function Need(store: Store): (n: nat) {
    Quorum(store) - 1
  }

  function AdminKeys(admins: seq<Admin>): (s: set<Key>) {
    set ad | ad in admins :: ad.key
  }

  /** One row per admin key. */
  ghost predicate OneRowPerKey(admins: seq<Admin>) {
    forall i, j :: 0 <= i < j < |admins| ==> admins[i].key != admins[j].key
  }

  // ---- when an admin is confirmed -------------------------------------------------------------

  predicate Rooted(store: Store, ad: Admin) {
    store.roots.Pinned? || |ad.chain| == 0 || store.roots.counts(ad.chain[0].grantor, ad.firstAct)
  }

  predicate RootConfirms(store: Store, key: Key, first: Key, act: Id) {
    match store.roots
    case Pinned => key == first
    case RootSet(member, counts) => member(key) && counts(key, act)
  }

  /** A confirmation that names hop `h` of the admin's chain, and is not its own grantor's. */
  predicate Names(ad: Admin, h: nat, cf: Confirmation)
    requires h < |ad.chain|
  {
    cf.grant == ad.chain[h].hopId && cf.confirmer != ad.chain[h].grantor
  }

  predicate ByRootAt(store: Store, ad: Admin, h: nat, cf: Confirmation)
    requires h < |ad.chain|
  {
    Names(ad, h, cf) && RootConfirms(store, cf.confirmer, ad.chain[0].grantor, cf.act)
  }

  predicate ByAdminAt(store: Store, confirmed: set<Key>, eligible: Option<set<Key>>, ad: Admin, h: nat, cf: Confirmation)
    requires h < |ad.chain|
  {
    && Names(ad, h, cf) && !RootConfirms(store, cf.confirmer, ad.chain[0].grantor, cf.act)
    && cf.confirmer in confirmed && (eligible.Some? ==> cf.confirmer in eligible.value)
  }

  /** The confirmed, eligible admins who confirm the hop. */
  function Confirmers(store: Store, confirms: seq<Confirmation>, confirmed: set<Key>, eligible: Option<set<Key>>, ad: Admin, h: nat): (s: set<Key>)
    requires h < |ad.chain|
  {
    set cf | cf in confirms && ByAdminAt(store, confirmed, eligible, ad, h, cf) :: cf.confirmer
  }

  /** A hop a root granted needs nothing; any other needs a root's confirmation or k - 1 confirmed admins'. */
  ghost predicate HopStands(store: Store, confirmed: set<Key>, eligible: Option<set<Key>>, ad: Admin, h: nat)
    requires h < |ad.chain|
  {
    || ad.chain[h].grantor == ad.chain[0].grantor || IsMember(store.roots, ad.chain[h].grantor)
    || (exists cf :: cf in store.confirms && ByRootAt(store, ad, h, cf))
    || |Confirmers(store, store.confirms, confirmed, eligible, ad, h)| >= Need(store)
  }

  ghost predicate Justified(store: Store, confirmed: set<Key>, eligible: Option<set<Key>>, ad: Admin) {
    Rooted(store, ad) && forall h :: 1 <= h < |ad.chain| ==> HopStands(store, confirmed, eligible, ad, h)
  }

  ghost predicate ClosedUnder(store: Store, eligible: Option<set<Key>>, t: set<Key>) {
    forall ad <- store.admins :: Justified(store, t, eligible, ad) ==> ad.key in t
  }

  /** The least set of admin keys closed under justification: those in every closed set. */
  ghost function LeastConfirmed(store: Store, eligible: Option<set<Key>>): (s: set<Key>) {
    set k | k in AdminKeys(store.admins) && forall t: set<Key> :: ClosedUnder(store, eligible, t) ==> k in t
  }

  /** Who is confirmed: with no confirmations kept, or k = 1, every rooted admin. */
  ghost function Confirmed(store: Store, eligible: Option<set<Key>>): (s: set<Key>) {
    if !store.keeps || Need(store) == 0 then set ad | ad in store.admins && Rooted(store, ad) :: ad.key
    else LeastConfirmed(store, eligible)
  }

  // ---- monotone ---------------------------------------------------------------------------------

  ghost predicate Within(e: Option<set<Key>>, f: Option<set<Key>>) {
    f.Some? ==> e.Some? && e.value <= f.value
  }

  lemma JustifiedMonotone(store: Store, s: set<Key>, e: Option<set<Key>>, t: set<Key>, f: Option<set<Key>>, ad: Admin)
    requires s <= t && Within(e, f) && Justified(store, s, e, ad)
    ensures Justified(store, t, f, ad)
  {
    forall h | 1 <= h < |ad.chain|
      ensures HopStands(store, t, f, ad, h)
    {
      assert HopStands(store, s, e, ad, h);
      SubsetSize(Confirmers(store, store.confirms, s, e, ad, h), Confirmers(store, store.confirms, t, f, ad, h));
    }
  }

  /** Fewer eligible confirmers, fewer confirmed. */
  lemma ConfirmedMonotone(store: Store, e: Option<set<Key>>, f: Option<set<Key>>)
    requires Within(e, f)
    ensures Confirmed(store, e) <= Confirmed(store, f)
  {
    hide Justified;
    forall t: set<Key> | ClosedUnder(store, f, t)
      ensures ClosedUnder(store, e, t)
    {
      forall ad <- store.admins | Justified(store, t, e, ad)
        ensures ad.key in t
      {
        JustifiedMonotone(store, t, e, t, f, ad);
      }
    }
  }

  /** The least set is itself closed: it is the least fixed point. */
  lemma LeastIsClosed(store: Store, eligible: Option<set<Key>>)
    ensures ClosedUnder(store, eligible, LeastConfirmed(store, eligible))
  {
    hide Justified;
    var least := LeastConfirmed(store, eligible);
    forall ad <- store.admins | Justified(store, least, eligible, ad)
      ensures ad.key in least
    {
      forall t: set<Key> | ClosedUnder(store, eligible, t)
        ensures ad.key in t
      {
        JustifiedMonotone(store, least, eligible, t, eligible, ad);
      }
    }
  }

  /** A closed set of admin keys inside every closed set is the least one. */
  lemma IsLeast(store: Store, eligible: Option<set<Key>>, s: set<Key>)
    requires s <= LeastConfirmed(store, eligible) && ClosedUnder(store, eligible, s)
    ensures s == LeastConfirmed(store, eligible)
  {
    hide ClosedUnder;
  }

  // ---- settling it in rounds -----------------------------------------------------------------------

  /** The keys whose flags are set. */
  ghost function Flagged(admins: seq<Admin>, flags: seq<bool>): (s: set<Key>)
    requires |flags| == |admins|
  {
    set i | 0 <= i < |admins| && flags[i] :: admins[i].key
  }

  /** The admin table's slot for a key, or its length. */
  method FindAdmin(admins: seq<Admin>, key: Key) returns (a: nat)
    ensures a <= |admins| && (a < |admins| ==> admins[a].key == key)
    ensures a == |admins| <==> key !in AdminKeys(admins)
  {
    a := 0;
    while a < |admins| && admins[a].key != key
      invariant 0 <= a <= |admins| && forall i :: 0 <= i < a ==> admins[i].key != key
    {
      a := a + 1;
    }
  }

  lemma FlagOf(admins: seq<Admin>, flags: seq<bool>, a: nat)
    requires |flags| == |admins| && OneRowPerKey(admins) && a < |admins|
    ensures admins[a].key in Flagged(admins, flags) <==> flags[a]
  {
    if admins[a].key in Flagged(admins, flags) {
      var i :| 0 <= i < |admins| && flags[i] && admins[i].key == admins[a].key;
      assert i == a;
    }
  }

  /** Whether a key's flag is set. */
  method IsFlagged(admins: seq<Admin>, flags: seq<bool>, key: Key) returns (yes: bool)
    requires |flags| == |admins| && OneRowPerKey(admins)
    ensures yes <==> key in Flagged(admins, flags)
  {
    var a := FindAdmin(admins, key);
    if a < |admins| {
      FlagOf(admins, flags, a);
    }
    yes := a < |admins| && flags[a];
  }

  /** Whether enough confirm hop `h`: confirmations are read until a root's is found or enough distinct admins are. */
  method HopOk(store: Store, flags: seq<bool>, eligible: Option<seq<bool>>, ad: Admin, h: nat) returns (ok: bool)
    requires OneRowPerKey(store.admins) && |flags| == |store.admins| && 1 <= h < |ad.chain|
    requires eligible.Some? ==> |eligible.value| == |store.admins|
    ensures ok <==> HopStands(store, Flagged(store.admins, flags), Keys(store, eligible), ad, h)
  {
    hide Flagged, RootConfirms;
    ghost var s, e := Flagged(store.admins, flags), Keys(store, eligible);
    if ad.chain[h].grantor == ad.chain[0].grantor || IsMember(store.roots, ad.chain[h].grantor) {
      return true;
    }
    var seen: seq<Key> := [];
    var byRoot, c := false, 0;
    while c < |store.confirms| && !byRoot && |seen| < Need(store)
      invariant 0 <= c <= |store.confirms| && |seen| <= Need(store)
      invariant byRoot ==> exists cf :: cf in store.confirms && ByRootAt(store, ad, h, cf)
      invariant !byRoot ==> forall i :: 0 <= i < c ==> !ByRootAt(store, ad, h, store.confirms[i])
      invariant Seen(store, store.confirms[..c], s, e, ad, h, seen)
    {
      var cf := store.confirms[c];
      SeenStep(store, c, s, e, ad, h, seen);
      if Names(ad, h, cf) {
        if RootConfirms(store, cf.confirmer, ad.chain[0].grantor, cf.act) {
          assert cf in store.confirms && ByRootAt(store, ad, h, cf);
          byRoot := true;
        } else {
          var mine := IsFlagged(store.admins, flags, cf.confirmer);
          var allowed := true;
          if eligible.Some? {
            allowed := IsFlagged(store.admins, eligible.value, cf.confirmer);
          }
          if mine && allowed && cf.confirmer !in seen {
            seen := seen + [cf.confirmer];
          }
        }
      }
      c := c + 1;
    }
    ok := byRoot || |seen| >= Need(store);
    HopDecided(store, c, s, e, ad, h, seen, byRoot);
  }

  ghost function Keys(store: Store, flags: Option<seq<bool>>): (e: Option<set<Key>>)
    requires flags.Some? ==> |flags.value| == |store.admins|
  {
    match flags
    case None => None
    case Some(f) => Some(Flagged(store.admins, f))
  }

  /** `seen` lists, once each, the admins confirming the hop among the confirmations read. */
  ghost predicate Seen(store: Store, read: seq<Confirmation>, s: set<Key>, e: Option<set<Key>>, ad: Admin, h: nat, seen: seq<Key>)
    requires h < |ad.chain|
  {
    && (forall k :: k in seen <==> k in Confirmers(store, read, s, e, ad, h))
    && |seen| == |Confirmers(store, read, s, e, ad, h)|
  }

  lemma ConfirmersStep(store: Store, read: seq<Confirmation>, cf: Confirmation, s: set<Key>, e: Option<set<Key>>, ad: Admin, h: nat)
    requires h < |ad.chain|
    ensures Confirmers(store, read + [cf], s, e, ad, h) ==
            Confirmers(store, read, s, e, ad, h) + if ByAdminAt(store, s, e, ad, h, cf) then {cf.confirmer} else {}
  {
    hide ByAdminAt;
    var before, after := Confirmers(store, read, s, e, ad, h), Confirmers(store, read + [cf], s, e, ad, h);
    forall k | k in after
      ensures k in before + if ByAdminAt(store, s, e, ad, h, cf) then {cf.confirmer} else {}
    {
      var x :| x in read + [cf] && ByAdminAt(store, s, e, ad, h, x) && x.confirmer == k;
      assert x in read || x == cf;
    }
    forall k | k in before
      ensures k in after
    {
      var x :| x in read && ByAdminAt(store, s, e, ad, h, x) && x.confirmer == k;
      assert x in read + [cf];
    }
    assert cf in read + [cf];
  }

  lemma SeenStep(store: Store, c: nat, s: set<Key>, e: Option<set<Key>>, ad: Admin, h: nat, seen: seq<Key>)
    requires h < |ad.chain| && c < |store.confirms| && Seen(store, store.confirms[..c], s, e, ad, h, seen)
    ensures var cf := store.confirms[c];
            Seen(store, store.confirms[..c + 1], s, e, ad, h,
                 if ByAdminAt(store, s, e, ad, h, cf) && cf.confirmer !in seen then seen + [cf.confirmer] else seen)
  {
    hide ByAdminAt, Confirmers;
    var cf := store.confirms[c];
    ConfirmersStep(store, store.confirms[..c], cf, s, e, ad, h);
    assert store.confirms[..c + 1] == store.confirms[..c] + [cf];
  }

  lemma HopDecided(store: Store, c: nat, s: set<Key>, e: Option<set<Key>>, ad: Admin, h: nat, seen: seq<Key>, byRoot: bool)
    requires 1 <= h < |ad.chain| && c <= |store.confirms| && Seen(store, store.confirms[..c], s, e, ad, h, seen)
    requires !(ad.chain[h].grantor == ad.chain[0].grantor || IsMember(store.roots, ad.chain[h].grantor))
    requires byRoot ==> exists cf :: cf in store.confirms && ByRootAt(store, ad, h, cf)
    requires !byRoot ==> forall i :: 0 <= i < c ==> !ByRootAt(store, ad, h, store.confirms[i])
    requires c == |store.confirms| || byRoot || |seen| >= Need(store)
    ensures byRoot || |seen| >= Need(store) <==> HopStands(store, s, e, ad, h)
  {
    hide ByAdminAt, ByRootAt;
    SubsetSize(Confirmers(store, store.confirms[..c], s, e, ad, h), Confirmers(store, store.confirms, s, e, ad, h));
    assert c == |store.confirms| ==> store.confirms[..c] == store.confirms;
  }

  method AdminOk(store: Store, flags: seq<bool>, eligible: Option<seq<bool>>, ad: Admin) returns (ok: bool)
    requires OneRowPerKey(store.admins) && |flags| == |store.admins|
    requires eligible.Some? ==> |eligible.value| == |store.admins|
    ensures ok <==> Justified(store, Flagged(store.admins, flags), Keys(store, eligible), ad)
  {
    hide Flagged, HopStands;
    if !Rooted(store, ad) {
      return false;
    }
    var h := 1;
    while h < |ad.chain|
      invariant 1 <= h && forall i :: 1 <= i < h && i < |ad.chain| ==>
                  HopStands(store, Flagged(store.admins, flags), Keys(store, eligible), ad, i)
    {
      var one := HopOk(store, flags, eligible, ad, h);
      if !one {
        return false;
      }
      h := h + 1;
    }
    ok := true;
  }

  function Raised(flags: seq<bool>): (n: nat)
    ensures n <= |flags|
  {
    if |flags| == 0 then 0 else Raised(flags[..|flags| - 1]) + if flags[|flags| - 1] then 1 else 0
  }

  lemma {:induction false} RaisedUp(flags: seq<bool>, a: nat)
    requires a < |flags| && !flags[a]
    ensures Raised(flags[a := true]) == Raised(flags) + 1
  {
    var n := |flags| - 1;
    if a < n {
      RaisedUp(flags[..n], a);
      assert flags[a := true][..n] == flags[..n][a := true];
    } else {
      assert flags[a := true][..n] == flags[..n];
    }
  }

  lemma FlaggedUp(admins: seq<Admin>, flags: seq<bool>, a: nat)
    requires |flags| == |admins| && a < |admins|
    ensures Flagged(admins, flags[a := true]) == Flagged(admins, flags) + {admins[a].key}
  {
    var up := flags[a := true];
    forall k | k in Flagged(admins, up)
      ensures k in Flagged(admins, flags) + {admins[a].key}
    {
      var i :| 0 <= i < |admins| && up[i] && admins[i].key == k;
      assert i != a ==> flags[i];
    }
    forall k | k in Flagged(admins, flags)
      ensures k in Flagged(admins, up)
    {
      var i :| 0 <= i < |admins| && flags[i] && admins[i].key == k;
      assert up[i];
    }
    assert up[a];
  }

  /** One round: everybody not yet confirmed is asked again. */
  method Round(store: Store, eligible: Option<seq<bool>>, flags0: seq<bool>) returns (flags: seq<bool>, changed: bool)
    requires OneRowPerKey(store.admins) && |flags0| == |store.admins|
    requires eligible.Some? ==> |eligible.value| == |store.admins|
    requires Flagged(store.admins, flags0) <= LeastConfirmed(store, Keys(store, eligible))
    ensures |flags| == |store.admins| && Flagged(store.admins, flags) <= LeastConfirmed(store, Keys(store, eligible))
    ensures changed ==> Raised(flags) > Raised(flags0)
    ensures !changed ==> ClosedUnder(store, Keys(store, eligible), Flagged(store.admins, flags))
  {
    hide Flagged, Justified, LeastConfirmed;
    ghost var e := Keys(store, eligible);
    flags, changed := flags0, false;
    for a := 0 to |store.admins|
      invariant |flags| == |store.admins| && Raised(flags) >= Raised(flags0) + (if changed then 1 else 0)
      invariant Flagged(store.admins, flags) <= LeastConfirmed(store, e)
      invariant !changed ==> flags == flags0
      invariant !changed ==> forall i :: 0 <= i < a ==>
                  (Justified(store, Flagged(store.admins, flags), e, store.admins[i]) ==> flags[i])
    {
      var ad := store.admins[a];
      if !flags[a] {
        var ok := AdminOk(store, flags, eligible, ad);
        if ok {
          JustifiedIsLeast(store, e, Flagged(store.admins, flags), ad);
          FlaggedUp(store.admins, flags, a);
          RaisedUp(flags, a);
          flags := flags[a := true];
          changed := true;
        }
      }
    }
    if !changed {
      forall i | 0 <= i < |store.admins| && Justified(store, Flagged(store.admins, flags), e, store.admins[i])
        ensures store.admins[i].key in Flagged(store.admins, flags)
      {
        FlagOf(store.admins, flags, i);
      }
    }
  }

  lemma JustifiedIsLeast(store: Store, e: Option<set<Key>>, s: set<Key>, ad: Admin)
    requires s <= LeastConfirmed(store, e) && ad in store.admins && Justified(store, s, e, ad)
    ensures ad.key in LeastConfirmed(store, e)
  {
    hide Justified;
    LeastIsClosed(store, e);
    JustifiedMonotone(store, s, e, LeastConfirmed(store, e), e, ad);
  }

  lemma NoneFlagged(admins: seq<Admin>, flags: seq<bool>)
    requires |flags| == |admins| && forall i :: 0 <= i < |flags| ==> !flags[i]
    ensures Flagged(admins, flags) == {}
  {
  }

  /** The confirmed admins. The rounds end at the least fixed point within their bound. */
  method ConfirmAdmins(store: Store, eligible: Option<seq<bool>>) returns (flags: seq<bool>)
    requires OneRowPerKey(store.admins)
    requires eligible.Some? ==> |eligible.value| == |store.admins|
    ensures |flags| == |store.admins|
    ensures Flagged(store.admins, flags) == Confirmed(store, Keys(store, eligible))
  {
    if !store.keeps || Need(store) == 0 {
      flags := seq(|store.admins|, a requires 0 <= a < |store.admins| => Rooted(store, store.admins[a]));
      RootedFlags(store, flags);
      return;
    }
    hide Flagged, LeastConfirmed;
    flags := seq(|store.admins|, _ => false);
    NoneFlagged(store.admins, flags);
    var round, changed := 0, true;
    while changed && round <= |store.admins|
      invariant 0 <= round && |flags| == |store.admins|
      invariant Flagged(store.admins, flags) <= LeastConfirmed(store, Keys(store, eligible))
      invariant changed ==> Raised(flags) >= round
      invariant !changed ==> ClosedUnder(store, Keys(store, eligible), Flagged(store.admins, flags))
      decreases |store.admins| + 1 - round
    {
      flags, changed := Round(store, eligible, flags);
      round := round + 1;
    }
    IsLeast(store, Keys(store, eligible), Flagged(store.admins, flags));
  }

  lemma RootedFlags(store: Store, flags: seq<bool>)
    requires |flags| == |store.admins| && forall a :: 0 <= a < |flags| ==> flags[a] == Rooted(store, store.admins[a])
    ensures Flagged(store.admins, flags) == set ad | ad in store.admins && Rooted(store, ad) :: ad.key
  {
    hide Rooted;
    var s := set ad | ad in store.admins && Rooted(store, ad) :: ad.key;
    forall k | k in s
      ensures k in Flagged(store.admins, flags)
    {
      var ad :| ad in store.admins && Rooted(store, ad) && ad.key == k;
      var i :| 0 <= i < |store.admins| && store.admins[i] == ad;
      assert flags[i];
    }
    forall k | k in Flagged(store.admins, flags)
      ensures k in s
    {
      var i :| 0 <= i < |store.admins| && flags[i] && store.admins[i].key == k;
    }
  }

  // ---- who stands, and what a chain's verdict is ------------------------------------------------------

  /** Hop `i` of a chain, as the judging asks about it. */
  function HopOf(store: Store, grantors: seq<Key>, grantee: Key, i: nat, cap: Cap, standing: set<Key>): (hop: Hop)
    requires i < |grantors|
  {
    Hop(cap, grantee, grantors[..i + 1], false, store.hasAdmin, AdminKeys(store.admins), Some(standing), store.roots)
  }

  function Grantors(chain: seq<Link>): (s: seq<Key>)
    ensures |s| == |chain|
  {
    seq(|chain|, i requires 0 <= i < |chain| => chain[i].grantor)
  }

  /** Whether hop `i` is revoked. */
  ghost predicate HopRevoked(store: Store, grantors: seq<Key>, grantee: Key, i: nat, cap: Cap, standing: set<Key>)
    requires i < |grantors|
  {
    Judge(HopOf(store, grantors, grantee, i, cap, standing), grantors[0], store.entries, Quorum(store)) != Free
  }

  ghost predicate AdminRevoked(store: Store, ad: Admin, standing: set<Key>) {
    exists h :: 0 <= h < |ad.chain| && HopRevoked(store, Grantors(ad.chain), ad.chain[h].grantee, h, store.adminCap, standing)
  }

  /** The first stratum: confirmed, and not revoked by any confirmed admins' votes. */
  ghost function FirstStratum(store: Store): (s: set<Key>) {
    var confirmed := Confirmed(store, None);
    set ad | ad in store.admins && ad.key in confirmed && !AdminRevoked(store, ad, confirmed) :: ad.key
  }

  /** The admins who stand: of the first stratum, those its own members still confirm. */
  ghost function Standing(store: Store): (s: set<Key>) {
    FirstStratum(store) * Confirmed(store, Some(FirstStratum(store)))
  }

  /** The second pass only removes. */
  lemma StandingOnlyShrinks(store: Store)
    ensures Standing(store) <= FirstStratum(store) <= Confirmed(store, None)
    ensures Confirmed(store, Some(FirstStratum(store))) <= Confirmed(store, None)
  {
    hide Confirmed;
    ConfirmedMonotone(store, Some(FirstStratum(store)), None);
  }

  method AdminStands(store: Store, ad: Admin, ghost confirmed: set<Key>, flags: seq<bool>) returns (ok: bool)
    requires OneRowPerKey(store.admins) && |flags| == |store.admins| && Flagged(store.admins, flags) == confirmed
    ensures ok <==> !AdminRevoked(store, ad, confirmed)
  {
    hide Judge, Flagged;
    var standing := FlagSet(store.admins, flags);
    for h := 0 to |ad.chain|
      invariant forall i :: 0 <= i < h ==> !HopRevoked(store, Grantors(ad.chain), ad.chain[i].grantee, i, store.adminCap, confirmed)
    {
      var hop := HopOf(store, Grantors(ad.chain), ad.chain[h].grantee, h, store.adminCap, standing);
      var v := JudgeHop(hop, ad.chain[0].grantor, store.entries, Quorum(store));
      if v != Free {
        assert HopRevoked(store, Grantors(ad.chain), ad.chain[h].grantee, h, store.adminCap, confirmed);
        return false;
      }
    }
    ok := true;
  }

  function FlagSet(admins: seq<Admin>, flags: seq<bool>): (s: set<Key>)
    requires |flags| == |admins|
    ensures s == Flagged(admins, flags)
  {
    set i | 0 <= i < |admins| && flags[i] :: admins[i].key
  }

  method StandingAdmins(store: Store) returns (flags: seq<bool>)
    requires OneRowPerKey(store.admins)
    ensures |flags| == |store.admins| && Flagged(store.admins, flags) == Standing(store)
  {
    hide Confirmed, AdminRevoked;
    var confirmed := ConfirmAdmins(store, None);
    var ok := confirmed;
    for a := 0 to |store.admins|
      invariant |ok| == |store.admins|
      invariant forall i :: 0 <= i < a ==> ok[i] == (confirmed[i] && !AdminRevoked(store, store.admins[i], Confirmed(store, None)))
      invariant forall i :: a <= i < |ok| ==> ok[i] == confirmed[i]
    {
      var stands := AdminStands(store, store.admins[a], Confirmed(store, None), confirmed);
      ok := ok[a := confirmed[a] && stands];
    }
    FirstFlags(store, confirmed, ok);
    var again := ConfirmAdmins(store, Some(ok));
    flags := seq(|ok|, a requires 0 <= a < |ok| => ok[a] && again[a]);
    BothFlags(store.admins, ok, again, flags);
  }

  lemma FirstFlags(store: Store, confirmed: seq<bool>, ok: seq<bool>)
    requires OneRowPerKey(store.admins) && |confirmed| == |ok| == |store.admins|
    requires Flagged(store.admins, confirmed) == Confirmed(store, None)
    requires forall i :: 0 <= i < |ok| ==> ok[i] == (confirmed[i] && !AdminRevoked(store, store.admins[i], Confirmed(store, None)))
    ensures Flagged(store.admins, ok) == FirstStratum(store)
  {
    hide Confirmed, AdminRevoked;
    forall k | k in FirstStratum(store)
      ensures k in Flagged(store.admins, ok)
    {
      var ad :| ad in store.admins && ad.key in Confirmed(store, None) && !AdminRevoked(store, ad, Confirmed(store, None)) && ad.key == k;
      var i :| 0 <= i < |store.admins| && store.admins[i] == ad;
      FlagOf(store.admins, confirmed, i);
      assert ok[i];
    }
    forall k | k in Flagged(store.admins, ok)
      ensures k in FirstStratum(store)
    {
      var i :| 0 <= i < |store.admins| && ok[i] && store.admins[i].key == k;
      FlagOf(store.admins, confirmed, i);
    }
  }

  lemma BothFlags(admins: seq<Admin>, f: seq<bool>, g: seq<bool>, both: seq<bool>)
    requires OneRowPerKey(admins) && |f| == |g| == |both| == |admins| && forall i :: 0 <= i < |f| ==> both[i] == (f[i] && g[i])
    ensures Flagged(admins, both) == Flagged(admins, f) * Flagged(admins, g)
  {
    forall k | k in Flagged(admins, f) * Flagged(admins, g)
      ensures k in Flagged(admins, both)
    {
      var i :| 0 <= i < |admins| && f[i] && admins[i].key == k;
      FlagOf(admins, g, i);
      assert both[i];
    }
    forall k | k in Flagged(admins, both)
      ensures k in Flagged(admins, f) * Flagged(admins, g)
    {
      var i :| 0 <= i < |admins| && both[i] && admins[i].key == k;
      FlagOf(admins, f, i);
      FlagOf(admins, g, i);
    }
  }

  /** Which hops of a chain the store revokes; of one too long to be a chain, none. */
  method CoversLinks(store: Store, grantors: seq<Key>, grantees: seq<Key>, cap: Cap) returns (revoked: seq<bool>)
    requires OneRowPerKey(store.admins) && |grantors| == |grantees|
    ensures |revoked| == |grantors|
    ensures forall i :: 0 <= i < |grantors| ==>
              revoked[i] == (|grantors| <= MAX_HOPS && HopRevoked(store, grantors, grantees[i], i, cap, Standing(store)))
  {
    hide Judge, Flagged, Standing;
    if |grantors| > MAX_HOPS {
      return seq(|grantors|, _ => false);
    }
    var flags := StandingAdmins(store);
    var standing := FlagSet(store.admins, flags);
    revoked := [];
    for i := 0 to |grantors|
      invariant |revoked| == i
      invariant forall j :: 0 <= j < i ==> revoked[j] == HopRevoked(store, grantors, grantees[j], j, cap, Standing(store))
    {
      var v := JudgeHop(HopOf(store, grantors, grantees[i], i, cap, standing), grantors[0], store.entries, Quorum(store));
      revoked := revoked + [v != Free];
    }
  }

  // ---- arrival order ------------------------------------------------------------------------------------

  /** The same records, in any order. */
  ghost predicate Reordered(s: Store, t: Store) {
    && multiset(s.entries) == multiset(t.entries) && multiset(s.admins) == multiset(t.admins)
    && multiset(s.confirms) == multiset(t.confirms)
    && t == s.(entries := t.entries, admins := t.admins, confirms := t.confirms)
  }

  lemma JustifiedReordered(s: Store, t: Store, confirmed: set<Key>, eligible: Option<set<Key>>, ad: Admin)
    requires Reordered(s, t)
    ensures Justified(s, confirmed, eligible, ad) == Justified(t, confirmed, eligible, ad)
  {
    SameMembers(s.confirms, t.confirms);
    forall h | 1 <= h < |ad.chain|
      ensures HopStands(s, confirmed, eligible, ad, h) == HopStands(t, confirmed, eligible, ad, h)
    {
      assert Confirmers(s, s.confirms, confirmed, eligible, ad, h) == Confirmers(t, t.confirms, confirmed, eligible, ad, h);
    }
  }

  lemma ConfirmedReordered(s: Store, t: Store, eligible: Option<set<Key>>)
    requires Reordered(s, t)
    ensures Confirmed(s, eligible) == Confirmed(t, eligible)
  {
    hide Justified;
    SameMembers(s.admins, t.admins);
    forall u: set<Key>
      ensures ClosedUnder(s, eligible, u) == ClosedUnder(t, eligible, u)
    {
      forall ad: Admin
        ensures Justified(s, u, eligible, ad) == Justified(t, u, eligible, ad)
      {
        JustifiedReordered(s, t, u, eligible, ad);
      }
    }
    assert AdminKeys(s.admins) == AdminKeys(t.admins);
  }

  lemma HopReordered(s: Store, t: Store, grantors: seq<Key>, grantee: Key, i: nat, cap: Cap, standing: set<Key>)
    requires Reordered(s, t) && s.roots.Pinned? && OnePerTriple(s.entries) && i < |grantors|
    ensures HopRevoked(s, grantors, grantee, i, cap, standing) == HopRevoked(t, grantors, grantee, i, cap, standing)
  {
    hide Judge;
    SameMembers(s.admins, t.admins);
    assert AdminKeys(s.admins) == AdminKeys(t.admins);
    PinnedJudgePermuted(HopOf(s, grantors, grantee, i, cap, standing), grantors[0], s.entries, t.entries, Quorum(s));
  }

  /** Under one pinned root, who stands and every hop's verdict are the same for every order of entries, admins and
      confirmations. */
  lemma VerdictsReordered(s: Store, t: Store, grantors: seq<Key>, grantee: Key, i: nat, cap: Cap)
    requires Reordered(s, t) && s.roots.Pinned? && OnePerTriple(s.entries) && i < |grantors|
    ensures Standing(s) == Standing(t)
    ensures HopRevoked(s, grantors, grantee, i, cap, Standing(s)) == HopRevoked(t, grantors, grantee, i, cap, Standing(t))
  {
    hide Confirmed, HopRevoked;
    SameMembers(s.admins, t.admins);
    ConfirmedReordered(s, t, None);
    var c := Confirmed(s, None);
    forall ad: Admin
      ensures AdminRevoked(s, ad, c) == AdminRevoked(t, ad, c)
    {
      forall h | 0 <= h < |ad.chain|
        ensures HopRevoked(s, Grantors(ad.chain), ad.chain[h].grantee, h, s.adminCap, c) ==
                HopRevoked(t, Grantors(ad.chain), ad.chain[h].grantee, h, t.adminCap, c)
      {
        HopReordered(s, t, Grantors(ad.chain), ad.chain[h].grantee, h, s.adminCap, c);
      }
    }
    assert FirstStratum(s) == FirstStratum(t);
    ConfirmedReordered(s, t, Some(FirstStratum(s)));
    HopReordered(s, t, grantors, grantee, i, cap, Standing(s));
  }
}
