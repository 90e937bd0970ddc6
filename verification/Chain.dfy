/** Capability chains: verification and delegation, chain/chain.c. */
module Chain {
  import opened Collections
  import opened Votes
  import opened Admins

  /** No expiry. */
  const NO_EXPIRY: nat := 0

  type Time = nat
  type Signature = nat

  /** What a hop's signature covers, and the hop. */
  datatype Grant = Grant(grantor: Key, grantee: Key, cap: Cap, issuedAt: Time, expiresAt: Time, delegable: bool)
  datatype SignedHop = SignedHop(grant: Grant, signature: Signature)

  datatype Error = Malformed | ChainInvalid | WrongRoot | Expired | Revoked | NotDelegable | Incomplete

  /** What a verification that succeeds reports. */
  datatype Verdict = Verdict(root: Key, grantee: Key, cap: Cap, hopCount: nat, expiresAt: Time)

  datatype Result<T> = Ok(value: T) | Err(error: Error)

  /** The signature seam, the identity of a hop's bytes, and the store of revocations, if any. */
  datatype Context = Context(verify: (Key, Grant, Signature) -> bool, hash: SignedHop -> Id, store: Option<Store>)

  // ---- verification ---------------------------------------------------------------------------

  function GrantorsOf(hops: seq<SignedHop>): (s: seq<Key>)
    ensures |s| == |hops|
  {
    seq(|hops|, i requires 0 <= i < |hops| => hops[i].grant.grantor)
  }

  /** Whether the store revokes hop `i`. */
  ghost predicate RevokedAt(ctx: Context, hops: seq<SignedHop>, cap: Cap, i: nat)
    requires i < |hops|
  {
    ctx.store.Some? &&
    HopRevoked(ctx.store.value, GrantorsOf(hops), hops[i].grant.grantee, i, cap, Standing(ctx.store.value))
  }

  /** The chain starts at a root: the one named, or one the store's set counts this first hop of. */
  predicate RootOk(ctx: Context, hops: seq<SignedHop>, root: Key)
    requires |hops| > 0
  {
    var first := hops[0].grant.grantor;
    if ctx.store.Some? && ctx.store.value.roots.RootSet? then
      ctx.store.value.roots.member(first) && ctx.store.value.roots.counts(first, ctx.hash(hops[0]))
    else first == root
  }

  /** What is wrong with hop `i`, in the order it is looked for. */
  ghost function HopFault(ctx: Context, hops: seq<SignedHop>, cap: Cap, now: Time, i: nat): (e: Option<Error>)
    requires i < |hops|
  {
    var g := hops[i].grant;
    if g.cap != cap then Some(ChainInvalid)
    else if i > 0 && g.grantor != hops[i - 1].grant.grantee then Some(ChainInvalid)
    else if i > 0 && !hops[i - 1].grant.delegable then Some(ChainInvalid)
    else if g.expiresAt != NO_EXPIRY && g.expiresAt <= g.issuedAt then Some(ChainInvalid)
    else if g.expiresAt != NO_EXPIRY && g.expiresAt <= now then Some(Expired)
    else if RevokedAt(ctx, hops, cap, i) then Some(Revoked)
    else None
  }

  /** The first fault among the first `n` hops. */
  ghost function FirstFault(ctx: Context, hops: seq<SignedHop>, cap: Cap, now: Time, n: nat): (e: Option<Error>)
    requires n <= |hops|
  {
    if n == 0 then None
    else
      var before := FirstFault(ctx, hops, cap, now, n - 1);
      if before.Some? then before else HopFault(ctx, hops, cap, now, n - 1)
  }

  /** The weakest link: the soonest expiry, an unlimited hop not winning it. */
  function Sooner(a: Time, b: Time): (t: Time) {
    if a == NO_EXPIRY then b else if b == NO_EXPIRY then a else if b < a then b else a
  }

  function Soonest(hops: seq<SignedHop>, n: nat): (t: Time)
    requires n <= |hops|
  {
    if n == 0 then NO_EXPIRY else Sooner(Soonest(hops, n - 1), hops[n - 1].grant.expiresAt)
  }

  predicate SignedAt(ctx: Context, hop: SignedHop) {
    ctx.verify(hop.grant.grantor, hop.grant, hop.signature)
  }

  /** Verification, `pending` the manifest's deficit per grantor when there is a gate. */
  ghost function Verify(ctx: Context, hops: seq<SignedHop>, root: Key, cap: Cap, now: Time, pending: Option<Key -> nat>): (r: Result<Verdict>) {
    if |hops| == 0 || |hops| > MAX_HOPS then Err(Malformed)
    else if !RootOk(ctx, hops, root) then Err(WrongRoot)
    else
      var fault := FirstFault(ctx, hops, cap, now, |hops|);
      if fault.Some? then Err(fault.value)
      else if pending.Some? && exists i :: 0 <= i < |hops| && pending.value(hops[i].grant.grantor) > 0 then Err(Incomplete)
      else if exists i :: 0 <= i < |hops| && !SignedAt(ctx, hops[i]) then Err(ChainInvalid)
      else Ok(Verdict(root, hops[|hops| - 1].grant.grantee, cap, |hops|, Soonest(hops, |hops|)))
  }

  method VerifyChain(ctx: Context, hops: seq<SignedHop>, root: Key, cap: Cap, now: Time, pending: Option<Key -> nat>)
    returns (r: Result<Verdict>)
    requires ctx.store.Some? ==> OneRowPerKey(ctx.store.value.admins)
    ensures r == Verify(ctx, hops, root, cap, now, pending)
  {
    if |hops| == 0 || |hops| > MAX_HOPS {
      return Err(Malformed);
    }
    if !RootOk(ctx, hops, root) {
      return Err(WrongRoot);
    }
    hide RootOk, FirstFault, Soonest, SignedAt;
    var fault, soonest := PassOne(ctx, hops, cap, now);
    if fault.Some? {
      return Err(fault.value);
    }
    if pending.Some? {
      for i := 0 to |hops|
        invariant forall j :: 0 <= j < i ==> pending.value(hops[j].grant.grantor) == 0
      {
        if pending.value(hops[i].grant.grantor) > 0 {
          return Err(Incomplete);
        }
      }
    }
    for i := 0 to |hops|
      invariant forall j :: 0 <= j < i ==> SignedAt(ctx, hops[j])
    {
      if !SignedAt(ctx, hops[i]) {
        return Err(ChainInvalid);
      }
    }
    r := Ok(Verdict(root, hops[|hops| - 1].grant.grantee, cap, |hops|, soonest));
  }

  /** Everything that costs nothing, hop by hop, with the soonest expiry kept as it goes. */
  method PassOne(ctx: Context, hops: seq<SignedHop>, cap: Cap, now: Time) returns (fault: Option<Error>, soonest: Time)
    requires |hops| <= MAX_HOPS
    requires ctx.store.Some? ==> OneRowPerKey(ctx.store.value.admins)
    ensures fault == FirstFault(ctx, hops, cap, now, |hops|)
    ensures fault == None ==> soonest == Soonest(hops, |hops|)
  {
    hide RevokedAt;
    var revoked := Covered(ctx, hops, cap);
    soonest := NO_EXPIRY;
    for i := 0 to |hops|
      invariant soonest == Soonest(hops, i) && FirstFault(ctx, hops, cap, now, i) == None
    {
      FaultStands(ctx, hops, cap, now, i + 1);
      var g := hops[i].grant;
      if g.cap != cap {
        return Some(ChainInvalid), soonest;
      }
      if i > 0 && (g.grantor != hops[i - 1].grant.grantee || !hops[i - 1].grant.delegable) {
        return Some(ChainInvalid), soonest;
      }
      if g.expiresAt != NO_EXPIRY {
        if g.expiresAt <= g.issuedAt {
          return Some(ChainInvalid), soonest;
        }
        if g.expiresAt <= now {
          return Some(Expired), soonest;
        }
        if soonest == NO_EXPIRY || g.expiresAt < soonest {
          soonest := g.expiresAt;
        }
      }
      if revoked[i] {
        return Some(Revoked), soonest;
      }
    }
    fault := None;
  }

  method Covered(ctx: Context, hops: seq<SignedHop>, cap: Cap) returns (revoked: seq<bool>)
    requires |hops| <= MAX_HOPS
    requires ctx.store.Some? ==> OneRowPerKey(ctx.store.value.admins)
    ensures |revoked| == |hops| && forall i :: 0 <= i < |hops| ==> revoked[i] == RevokedAt(ctx, hops, cap, i)
  {
    hide HopRevoked, Standing;
    if ctx.store.None? {
      return seq(|hops|, _ => false);
    }
    var grantees := seq(|hops|, i requires 0 <= i < |hops| => hops[i].grant.grantee);
    revoked := CoversLinks(ctx.store.value, GrantorsOf(hops), grantees, cap);
  }

  /** A fault found stays the first fault. */
  lemma {:induction false} FaultStands(ctx: Context, hops: seq<SignedHop>, cap: Cap, now: Time, n: nat)
    requires n <= |hops|
    ensures FirstFault(ctx, hops, cap, now, n).Some? ==>
              FirstFault(ctx, hops, cap, now, |hops|) == FirstFault(ctx, hops, cap, now, n)
    decreases |hops| - n
  {
    hide HopFault;
    if n < |hops| {
      FaultStands(ctx, hops, cap, now, n + 1);
    }
  }

  // ---- what a chain that verifies is -------------------------------------------------------------

  lemma NoFault(ctx: Context, hops: seq<SignedHop>, cap: Cap, now: Time, n: nat)
    requires n <= |hops|
    ensures FirstFault(ctx, hops, cap, now, n) == None <==> forall i :: 0 <= i < n ==> HopFault(ctx, hops, cap, now, i) == None
  {
    hide HopFault;
  }

  /** Verification succeeds exactly when the chain is short enough, rooted, faultless hop by hop, caught up, and signed. */
  lemma VerifiesIff(ctx: Context, hops: seq<SignedHop>, root: Key, cap: Cap, now: Time, pending: Option<Key -> nat>)
    ensures Verify(ctx, hops, root, cap, now, pending).Ok? <==>
            && 0 < |hops| <= MAX_HOPS && RootOk(ctx, hops, root)
            && (forall i :: 0 <= i < |hops| ==> HopFault(ctx, hops, cap, now, i) == None)
            && (pending.Some? ==> forall i :: 0 <= i < |hops| ==> pending.value(hops[i].grant.grantor) == 0)
            && (forall i :: 0 <= i < |hops| ==> SignedAt(ctx, hops[i]))
  {
    hide HopFault, RootOk, SignedAt, FirstFault;
    NoFault(ctx, hops, cap, now, |hops|);
  }

  // ---- what is accepted and what refused, over the hops' fields ------------------------------------

  /** The first grantor is the root: the one named, or a member of the store's set whose act the first hop counts as. */
  predicate StartsAtRoot(ctx: Context, hops: seq<SignedHop>, root: Key)
    requires |hops| > 0
  {
    match ctx.store
    case None => hops[0].grant.grantor == root
    case Some(store) =>
      match store.roots
      case Pinned => hops[0].grant.grantor == root
      case RootSet(member, counts) => member(hops[0].grant.grantor) && counts(hops[0].grant.grantor, ctx.hash(hops[0]))
  }

  /** Hop `i` is for the capability, was granted by the grantee of the one before, who was allowed to, and ends after it begins. */
  predicate Linked(hops: seq<SignedHop>, cap: Cap, i: nat)
    requires i < |hops|
  {
    var g := hops[i].grant;
    && g.cap == cap
    && (i > 0 ==> g.grantor == hops[i - 1].grant.grantee && hops[i - 1].grant.delegable)
    && (g.expiresAt == NO_EXPIRY || g.issuedAt < g.expiresAt)
  }

  predicate Unexpired(hops: seq<SignedHop>, now: Time, i: nat)
    requires i < |hops|
  {
    hops[i].grant.expiresAt == NO_EXPIRY || now < hops[i].grant.expiresAt
  }

  predicate CaughtUp(hops: seq<SignedHop>, pending: Option<Key -> nat>) {
    pending.Some? ==> forall i :: 0 <= i < |hops| ==> pending.value(hops[i].grant.grantor) == 0
  }

  predicate AllSigned(ctx: Context, hops: seq<SignedHop>) {
    forall i :: 0 <= i < |hops| ==> ctx.verify(hops[i].grant.grantor, hops[i].grant, hops[i].signature)
  }

  ghost predicate HopFine(ctx: Context, hops: seq<SignedHop>, cap: Cap, now: Time, i: nat)
    requires i < |hops|
  {
    Linked(hops, cap, i) && Unexpired(hops, now, i) && !RevokedAt(ctx, hops, cap, i)
  }

  /** Acceptance, both ways, over the fields of the hops: rooted, one capability, each hop granted by the last grantee under a
      hop that may be passed on, none expired, none revoked, caught up and signed; and what is then reported. */
  lemma AcceptedIff(ctx: Context, hops: seq<SignedHop>, root: Key, cap: Cap, now: Time, pending: Option<Key -> nat>)
    ensures Verify(ctx, hops, root, cap, now, pending).Ok? <==>
            && 0 < |hops| <= 8 && StartsAtRoot(ctx, hops, root) && (forall i :: 0 <= i < |hops| ==> HopFine(ctx, hops, cap, now, i))
            && CaughtUp(hops, pending) && AllSigned(ctx, hops)
    ensures Verify(ctx, hops, root, cap, now, pending).Ok? ==>
              var v := Verify(ctx, hops, root, cap, now, pending).value;
              && v.root == root && v.grantee == hops[|hops| - 1].grant.grantee && v.cap == cap && v.hopCount == |hops|
              && v.expiresAt == Soonest(hops, |hops|)
  {
    hide RevokedAt, FirstFault, Soonest;
    VerifiesIff(ctx, hops, root, cap, now, pending);
    forall i | 0 <= i < |hops|
      ensures HopFault(ctx, hops, cap, now, i) == None <==> HopFine(ctx, hops, cap, now, i)
    {
    }
  }

  /** What a chain that verifies is, on one pinned root, spelled out. */
  lemma AcceptedMeans(ctx: Context, hops: seq<SignedHop>, root: Key, cap: Cap, now: Time, pending: Option<Key -> nat>, i: nat)
    requires Verify(ctx, hops, root, cap, now, pending).Ok? && i < |hops|
    ensures (ctx.store.None? || ctx.store.value.roots.Pinned?) ==> hops[0].grant.grantor == root
    ensures hops[i].grant.cap == cap
    ensures i > 0 ==> hops[i].grant.grantor == hops[i - 1].grant.grantee && hops[i - 1].grant.delegable
    ensures hops[i].grant.expiresAt != 0 ==> hops[i].grant.issuedAt < hops[i].grant.expiresAt && now < hops[i].grant.expiresAt
    ensures ctx.verify(hops[i].grant.grantor, hops[i].grant, hops[i].signature)
    ensures pending.Some? ==> pending.value(hops[i].grant.grantor) == 0
  {
    hide RevokedAt, FirstFault, Verify;
    AcceptedIff(ctx, hops, root, cap, now, pending);
    assert HopFine(ctx, hops, cap, now, i);
  }

  lemma FirstAtFault(ctx: Context, hops: seq<SignedHop>, cap: Cap, now: Time, i: nat)
    requires i < |hops| && !HopFine(ctx, hops, cap, now, i) && forall j :: 0 <= j < i ==> HopFine(ctx, hops, cap, now, j)
    ensures FirstFault(ctx, hops, cap, now, |hops|) ==
            Some(if !Linked(hops, cap, i) then ChainInvalid else if !Unexpired(hops, now, i) then Expired else Revoked)
  {
    hide RevokedAt, FirstFault;
    forall j | 0 <= j < i
      ensures HopFault(ctx, hops, cap, now, j) == None
    {
      assert HopFine(ctx, hops, cap, now, j);
    }
    NoFault(ctx, hops, cap, now, i);
    NextFault(ctx, hops, cap, now, i);
    FaultStands(ctx, hops, cap, now, i + 1);
  }

  lemma NextFault(ctx: Context, hops: seq<SignedHop>, cap: Cap, now: Time, i: nat)
    requires i < |hops| && FirstFault(ctx, hops, cap, now, i) == None
    ensures FirstFault(ctx, hops, cap, now, i + 1) == HopFault(ctx, hops, cap, now, i)
  {
    hide HopFault;
  }

  /** Which refusal a rooted chain gets when hop `i` is the first at fault: what is wrong with the grant before what time did to
      it, and that before what the store says. */
  lemma FirstRefusal(ctx: Context, hops: seq<SignedHop>, root: Key, cap: Cap, now: Time, pending: Option<Key -> nat>, i: nat)
    requires i < |hops| <= 8 && StartsAtRoot(ctx, hops, root)
    requires !HopFine(ctx, hops, cap, now, i) && forall j :: 0 <= j < i ==> HopFine(ctx, hops, cap, now, j)
    ensures Verify(ctx, hops, root, cap, now, pending) ==
            Err(if !Linked(hops, cap, i) then ChainInvalid else if !Unexpired(hops, now, i) then Expired else Revoked)
  {
    hide HopFine, FirstFault, Linked, Unexpired;
    FirstAtFault(ctx, hops, cap, now, i);
  }

  /** And the refusals of a chain with no hop at fault, and of one not looked at. */
  lemma OtherRefusals(ctx: Context, hops: seq<SignedHop>, root: Key, cap: Cap, now: Time, pending: Option<Key -> nat>)
    ensures var v := Verify(ctx, hops, root, cap, now, pending);
            && (!(0 < |hops| <= 8) ==> v == Err(Malformed))
            && (0 < |hops| <= 8 && !StartsAtRoot(ctx, hops, root) ==> v == Err(WrongRoot))
            && (0 < |hops| <= 8 && StartsAtRoot(ctx, hops, root) && (forall i :: 0 <= i < |hops| ==> HopFine(ctx, hops, cap, now, i)) ==>
                  (!CaughtUp(hops, pending) ==> v == Err(Incomplete)) &&
                  (CaughtUp(hops, pending) && !AllSigned(ctx, hops) ==> v == Err(ChainInvalid)))
  {
    hide RevokedAt, FirstFault, Soonest;
    NoFault(ctx, hops, cap, now, |hops|);
    forall i | 0 <= i < |hops|
      ensures HopFine(ctx, hops, cap, now, i) ==> HopFault(ctx, hops, cap, now, i) == None
    {
    }
  }

  /** A hop is judged by itself, the one before it and the grantors above it. */
  lemma FaultOfPrefix(ctx: Context, hops: seq<SignedHop>, more: seq<SignedHop>, cap: Cap, now: Time, i: nat)
    requires i < |hops|
    ensures HopFault(ctx, hops, cap, now, i) == HopFault(ctx, hops + more, cap, now, i)
  {
    hide Judge, Standing;
    assert GrantorsOf(hops + more)[..i + 1] == GrantorsOf(hops)[..i + 1];
    assert (hops + more)[i] == hops[i];
  }

  /** Every nonempty prefix of a chain that verifies, verifies. */
  lemma PrefixVerifies(ctx: Context, hops: seq<SignedHop>, more: seq<SignedHop>, root: Key, cap: Cap, now: Time, pending: Option<Key -> nat>)
    requires |hops| > 0 && Verify(ctx, hops + more, root, cap, now, pending).Ok?
    ensures Verify(ctx, hops, root, cap, now, pending).Ok?
  {
    hide HopFault, SignedAt, Verify;
    VerifiesIff(ctx, hops + more, root, cap, now, pending);
    VerifiesIff(ctx, hops, root, cap, now, pending);
    forall i | 0 <= i < |hops|
      ensures HopFault(ctx, hops, cap, now, i) == None && SignedAt(ctx, hops[i])
      ensures pending.Some? ==> pending.value(hops[i].grant.grantor) == 0
    {
      FaultOfPrefix(ctx, hops, more, cap, now, i);
      assert (hops + more)[i] == hops[i];
    }
  }

  /** The soonest expiry is that of some hop, and none is sooner. */
  lemma {:induction false} SoonestIs(hops: seq<SignedHop>, n: nat)
    requires n <= |hops|
    ensures Soonest(hops, n) != NO_EXPIRY ==> exists i :: 0 <= i < n && hops[i].grant.expiresAt == Soonest(hops, n)
    ensures forall i :: 0 <= i < n && hops[i].grant.expiresAt != NO_EXPIRY ==>
              Soonest(hops, n) != NO_EXPIRY && Soonest(hops, n) <= hops[i].grant.expiresAt
  {
    if n > 0 {
      SoonestIs(hops, n - 1);
    }
  }

  /** Verified once, a chain verifies against the same store at any time before its soonest expiry, the gate aside. */
  lemma VerifiesUntilExpiry(ctx: Context, hops: seq<SignedHop>, root: Key, cap: Cap, at: Time, now: Time, pending: Option<Key -> nat>)
    requires Verify(ctx, hops, root, cap, at, pending).Ok?
    requires var t := Verify(ctx, hops, root, cap, at, pending).value.expiresAt; t != NO_EXPIRY ==> now < t
    ensures Verify(ctx, hops, root, cap, now, None) == Verify(ctx, hops, root, cap, at, pending)
  {
    hide RootOk, SignedAt, RevokedAt, FirstFault, Soonest;
    VerifiesIff(ctx, hops, root, cap, at, pending);
    VerifiesIff(ctx, hops, root, cap, now, None);
    SoonestIs(hops, |hops|);
    assert Verify(ctx, hops, root, cap, at, pending).value.expiresAt == Soonest(hops, |hops|);
    forall i | 0 <= i < |hops|
      ensures HopFault(ctx, hops, cap, now, i) == None
    {
      assert HopFault(ctx, hops, cap, at, i) == None;
    }
  }

  // ---- delegation ------------------------------------------------------------------------------------

  /** The signer: what it signs a grant with, if it will. */
  type Signer = Grant -> Option<Signature>

  /** Encodes and signs one hop. */
  function HopSign(grantor: Key, grantee: Key, cap: Cap, issuedAt: Time, expiresAt: Time, delegable: bool, sign: Signer): (r: Result<SignedHop>) {
    if expiresAt != NO_EXPIRY && expiresAt <= issuedAt then Err(ChainInvalid)
    else
      var g := Grant(grantor, grantee, cap, issuedAt, expiresAt, delegable);
      match sign(g)
      case None => Err(ChainInvalid)
      case Some(signature) => Ok(SignedHop(g, signature))
  }

  /** Extends a chain by one hop to `grantee`. */
  method Delegate(ctx: Context, hops: seq<SignedHop>, root: Key, cap: Cap, now: Time, grantee: Key, wanted: Time,
                  delegable: bool, sign: Signer)
    returns (r: Result<SignedHop>)
    requires ctx.store.Some? ==> OneRowPerKey(ctx.store.value.admins)
    ensures |hops| >= MAX_HOPS ==> r == Err(Malformed)
    ensures var v := Verify(ctx, hops, root, cap, now, None);
            |hops| < MAX_HOPS && v.Err? ==> r == Err(v.error)
    ensures var v := Verify(ctx, hops, root, cap, now, None);
            |hops| < MAX_HOPS && v.Ok? ==>
              |hops| > 0 && if !hops[|hops| - 1].grant.delegable then r == Err(NotDelegable)
              else if r.Ok? then
                && Extends(hops, r.value, cap, now, grantee, v.value.expiresAt)
                && r.value.grant.expiresAt == Sooner(v.value.expiresAt, wanted)
                && sign(r.value.grant) == Some(r.value.signature) && r.value.grant.delegable == delegable
              else r.error == ChainInvalid &&
                   ((wanted != NO_EXPIRY && wanted <= now) ||
                    sign(Grant(v.value.grantee, grantee, cap, now, Sooner(v.value.expiresAt, wanted), delegable)) == None)
  {
    hide Verify;
    if |hops| >= MAX_HOPS {
      return Err(Malformed);
    }
    var v := VerifyChain(ctx, hops, root, cap, now, None);
    if v.Err? {
      return Err(v.error);
    }
    VerifiedShape(ctx, hops, root, cap, now, None);
    if !hops[|hops| - 1].grant.delegable {
      return Err(NotDelegable);
    }
    var existing := v.value;
    var expires := wanted;
    if existing.expiresAt != NO_EXPIRY && (wanted == NO_EXPIRY || wanted > existing.expiresAt) {
      expires := existing.expiresAt;
    }
    r := HopSign(existing.grantee, grantee, cap, now, expires, delegable, sign);
  }

  lemma VerifiedShape(ctx: Context, hops: seq<SignedHop>, root: Key, cap: Cap, now: Time, pending: Option<Key -> nat>)
    requires Verify(ctx, hops, root, cap, now, pending).Ok?
    ensures var v := Verify(ctx, hops, root, cap, now, pending).value;
            |hops| > 0 && v.grantee == hops[|hops| - 1].grant.grantee && (v.expiresAt != NO_EXPIRY ==> now < v.expiresAt)
  {
    hide RootOk, SignedAt, RevokedAt, FirstFault, Soonest;
    VerifiesIff(ctx, hops, root, cap, now, pending);
    SoonestIs(hops, |hops|);
    var t := Soonest(hops, |hops|);
    if t != NO_EXPIRY {
      var i :| 0 <= i < |hops| && hops[i].grant.expiresAt == t;
      assert HopFault(ctx, hops, cap, now, i) == None;
    }
  }

  /** A hop that extends the chain: granted by the last grantee, for the same capability, from now, and for no longer than
      the chain has (no expiry being the longest). */
  ghost predicate Extends(hops: seq<SignedHop>, hop: SignedHop, cap: Cap, now: Time, grantee: Key, limit: Time) {
    && |hops| > 0 && hops[|hops| - 1].grant.delegable
    && hop.grant.grantor == hops[|hops| - 1].grant.grantee && hop.grant.grantee == grantee && hop.grant.cap == cap
    && hop.grant.issuedAt == now && (hop.grant.expiresAt != NO_EXPIRY ==> hop.grant.expiresAt > now)
    && (limit != NO_EXPIRY ==> hop.grant.expiresAt != NO_EXPIRY && hop.grant.expiresAt <= limit)
  }

  /** Delegation preserves validity: the chain with the new hop verifies at the same time, root and capability unless the store
      revokes that very hop; and then it expires no later than its parent. */
  lemma DelegationVerifies(ctx: Context, hops: seq<SignedHop>, hop: SignedHop, root: Key, cap: Cap, now: Time, grantee: Key)
    requires Verify(ctx, hops, root, cap, now, None).Ok? && |hops| < MAX_HOPS && SignedAt(ctx, hop)
    requires Extends(hops, hop, cap, now, grantee, Verify(ctx, hops, root, cap, now, None).value.expiresAt)
    ensures var all := hops + [hop];
            var parent := Verify(ctx, hops, root, cap, now, None).value;
            Verify(ctx, all, root, cap, now, None) ==
              if RevokedAt(ctx, all, cap, |hops|) then Err(Revoked)
              else Ok(Verdict(root, grantee, cap, |hops| + 1, Sooner(parent.expiresAt, hop.grant.expiresAt)))
    ensures var parent := Verify(ctx, hops, root, cap, now, None).value.expiresAt;
            Sooner(parent, hop.grant.expiresAt) == hop.grant.expiresAt
  {
    hide RevokedAt, SignedAt;
    var all, n := hops + [hop], |hops|;
    VerifiesIff(ctx, hops, root, cap, now, None);
    NoFault(ctx, hops, cap, now, n);
    forall i | 0 <= i < n
      ensures HopFault(ctx, all, cap, now, i) == None
    {
      FaultOfPrefix(ctx, hops, [hop], cap, now, i);
    }
    NoFault(ctx, all, cap, now, n);
    SoonestPrefix(hops, [hop], n);
    assert forall i :: 0 <= i < n ==> all[i] == hops[i];
    assert all[n] == hop;
  }

  lemma SoonestPrefix(hops: seq<SignedHop>, more: seq<SignedHop>, n: nat)
    requires n <= |hops|
    ensures Soonest(hops + more, n) == Soonest(hops, n)
  {
  }
}
