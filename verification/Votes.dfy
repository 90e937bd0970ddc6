/** How one hop of a chain is judged in chain/revocation.c: which votes count, which epoch is open, and the verdict. */
module Votes {
  import opened Collections

  type Key = nat
  type Cap = nat
  /** The identity of a record; zero names nothing. */
  type Id = nat

  const EPOCH_MAX: nat := 0xFFFF_FFFF_FFFF_FFFF
  type Epoch = x: nat | x <= EPOCH_MAX

  /** One entry of the store: the last thing an issuer said about a capability and a grantee. */
  datatype Entry = Entry(cap: Cap, grantee: Key, issuer: Key, id: Id, withdrawn: bool, epoch: Epoch, held: Id, cut: Id)

  /** One pinned root, or a set that says which keys are roots and which of their acts count. */
  datatype Roots = Pinned | RootSet(member: Key -> bool, counts: (Key, Id) -> bool)

  /** What is asked about a hop: its capability and grantee, the grantors entitled over it, the admins the store knows
      and which of them stand (`None`: all of them). */
  datatype Hop = Hop(cap: Cap, grantee: Key, entitled: seq<Key>, anyIssuer: bool,
                     hasAdmin: bool, admins: set<Key>, standing: Option<set<Key>>, roots: Roots)

  /** A root acts alone: its live vote settles the hop; otherwise its undo, if any, is the floor. */
  datatype RootsWord = Settled | Undone(floor: Option<Epoch>)

  datatype Verdict = Free | ByRoot | ByVotes | Latched(epoch: Epoch)

  // ---- which entries count ---------------------------------------------------------------

  predicate IsMember(roots: Roots, key: Key) {
    roots.RootSet? && roots.member(key)
  }

  predicate RootEntry(hop: Hop, root: Key, e: Entry) {
    match hop.roots
    case Pinned => e.issuer == root
    case RootSet(member, counts) => member(e.issuer) && counts(e.issuer, e.held)
  }

  predicate AdminCounts(hop: Hop, issuer: Key) {
    issuer in hop.admins && (hop.standing.None? || issuer in hop.standing.value)
  }

  predicate Entitled(hop: Hop, e: Entry) {
    if hop.anyIssuer then
      hop.standing.Some? && hop.hasAdmin && !IsMember(hop.roots, e.issuer) && e.issuer in hop.admins ==>
        e.issuer in hop.standing.value
    else if IsMember(hop.roots, e.issuer) then hop.roots.counts(e.issuer, e.held)
    else e.issuer in hop.entitled || (hop.hasAdmin && AdminCounts(hop, e.issuer))
  }

  predicate Above(floor: Option<Epoch>, epoch: Epoch) {
    floor.Some? ==> epoch > floor.value
  }

  predicate Counts(hop: Hop, floor: Option<Epoch>, e: Entry) {
    e.cap == hop.cap && e.grantee == hop.grantee && Above(floor, e.epoch) && Entitled(hop, e)
  }

  // ---- counting --------------------------------------------------------------------------

  function Count(entries: seq<Entry>, p: Entry -> bool): (n: nat)
    ensures n <= |entries|
  {
    if |entries| == 0 then 0
    else Count(entries[..|entries| - 1], p) + if p(entries[|entries| - 1]) then 1 else 0
  }

  lemma {:induction false} CountMonotone(entries: seq<Entry>, p: Entry -> bool, q: Entry -> bool)
    requires forall e <- entries :: p(e) ==> q(e)
    ensures Count(entries, p) <= Count(entries, q)
  {
    if |entries| > 0 {
      CountMonotone(entries[..|entries| - 1], p, q);
      assert entries[|entries| - 1] in entries;
    }
  }

  lemma CountSame(entries: seq<Entry>, p: Entry -> bool, q: Entry -> bool)
    requires forall e <- entries :: p(e) <==> q(e)
    ensures Count(entries, p) == Count(entries, q)
  {
    CountMonotone(entries, p, q);
    CountMonotone(entries, q, p);
  }

  lemma {:induction false} CountSome(entries: seq<Entry>, p: Entry -> bool)
    ensures Count(entries, p) > 0 <==> exists e :: e in entries && p(e)
  {
    if |entries| > 0 {
      var n := |entries| - 1;
      CountSome(entries[..n], p);
      if p(entries[n]) {
        assert entries[n] in entries;
      }
      assert forall e :: e in entries <==> e in entries[..n] || e == entries[n];
    }
  }

  lemma {:induction false} CountConcat(s: seq<Entry>, t: seq<Entry>, p: Entry -> bool)
    ensures Count(s + t, p) == Count(s, p) + Count(t, p)
  {
    if |t| == 0 {
      assert s + t == s;
    } else {
      CountConcat(s, t[..|t| - 1], p);
      assert (s + t)[..|s + t| - 1] == s + t[..|t| - 1];
    }
  }

  lemma Around<T>(t: seq<T>, i: nat)
    requires i < |t|
    ensures multiset(t) == multiset(t[..i] + t[i + 1..]) + multiset{t[i]}
  {
    assert t == t[..i] + [t[i]] + t[i + 1..];
    var a, c := multiset(t[..i]), multiset(t[i + 1..]);
    assert multiset(t[..i] + [t[i]]) == a + multiset{t[i]};
    assert multiset(t) == multiset(t[..i] + [t[i]]) + c;
    assert multiset(t[..i] + t[i + 1..]) == a + c;
  }

  lemma Cancel<T>(a: multiset<T>, b: multiset<T>, x: T)
    requires a + multiset{x} == b + multiset{x}
    ensures a == b
  {
    assert a == (a + multiset{x}) - multiset{x};
    assert b == (b + multiset{x}) - multiset{x};
  }

  lemma Removed<T>(s: seq<T>, t: seq<T>, i: nat)
    requires |s| > 0 && i < |t| && t[i] == s[|s| - 1] && multiset(s) == multiset(t)
    ensures multiset(s[..|s| - 1]) == multiset(t[..i] + t[i + 1..])
  {
    var x := t[i];
    var a, b := s[..|s| - 1], t[..i] + t[i + 1..];
    Around(s, |s| - 1);
    assert a + s[|s|..] == a;
    Around(t, i);
    Cancel(multiset(a), multiset(b), x);
  }

  /** A count does not depend on the order of the entries. */
  lemma {:induction false} CountPermuted(s: seq<Entry>, t: seq<Entry>, p: Entry -> bool)
    requires multiset(s) == multiset(t)
    ensures Count(s, p) == Count(t, p)
    decreases |s|
  {
    if |s| == 0 {
      assert |multiset(t)| == 0;
    } else {
      var x := s[|s| - 1];
      assert x in multiset(t);
      var i: nat :| i < |t| && t[i] == x;
      Removed(s, t, i);
      CountPermuted(s[..|s| - 1], t[..i] + t[i + 1..], p);
      CountConcat(t[..i], t[i + 1..], p);
      CountConcat(t[..i], [x], p);
      CountConcat(t[..i] + [x], t[i + 1..], p);
      assert t == t[..i] + [x] + t[i + 1..];
    }
  }

  // ---- epochs ----------------------------------------------------------------------------

  predicate HasLeft(epoch: Epoch, e: Entry) {
    e.epoch > epoch || (e.epoch == epoch && e.withdrawn)
  }

  /** How many counted issuers have left an epoch: withdrawn in it, or voted in a later one. */
  function Left(hop: Hop, floor: Option<Epoch>, entries: seq<Entry>, epoch: Epoch): (n: nat) {
    Count(entries, e => Counts(hop, floor, e) && HasLeft(epoch, e))
  }

  predicate Closed(hop: Hop, floor: Option<Epoch>, entries: seq<Entry>, epoch: Epoch, q: nat) {
    Left(hop, floor, entries, epoch) >= q
  }

  /** Where the search starts: past the root's undo. */
  function First(floor: Option<Epoch>): (x: nat) {
    match floor
    case None => 0
    case Some(f) => f + 1
  }

  /** `x` is the least epoch past the floor that is not closed, over all 64-bit epochs; the last epoch if none is. */
  ghost predicate IsOpenEpoch(hop: Hop, floor: Option<Epoch>, entries: seq<Entry>, q: nat, x: Epoch) {
    || (First(floor) <= x && !Closed(hop, floor, entries, x, q) &&
        forall y: Epoch :: First(floor) <= y < x ==> Closed(hop, floor, entries, y, q))
    || (x == EPOCH_MAX && forall y: Epoch :: First(floor) <= y ==> Closed(hop, floor, entries, y, q))
  }

  lemma OpenEpochUnique(hop: Hop, floor: Option<Epoch>, entries: seq<Entry>, q: nat, x: Epoch, y: Epoch)
    requires IsOpenEpoch(hop, floor, entries, q, x) && IsOpenEpoch(hop, floor, entries, q, y)
    ensures x == y
  {
    hide Closed;
  }

  /** An entry whose epoch, or the one after it, is `x`. */
  ghost predicate Candidate(hop: Hop, floor: Option<Epoch>, entries: seq<Entry>, x: Epoch) {
    exists e :: e in entries && Counts(hop, floor, e) && (e.epoch == x || e.epoch + 1 == x)
  }

  /** Closure can only change at an epoch an entry names or the one after it. */
  lemma LeftSteps(hop: Hop, floor: Option<Epoch>, entries: seq<Entry>, x: Epoch)
    requires x > 0 && !Candidate(hop, floor, entries, x)
    ensures Left(hop, floor, entries, x) == Left(hop, floor, entries, x - 1)
  {
    hide Counts;
    CountSame(entries, e => Counts(hop, floor, e) && HasLeft(x, e), e => Counts(hop, floor, e) && HasLeft(x - 1, e));
  }

  /** So the least epoch not closed is the first one or a candidate. */
  lemma {:induction false} LeastIsCandidate(hop: Hop, floor: Option<Epoch>, entries: seq<Entry>, q: nat, x: Epoch)
    requires First(floor) <= x && !Closed(hop, floor, entries, x, q)
    ensures exists y: Epoch :: First(floor) <= y <= x && !Closed(hop, floor, entries, y, q) &&
                               (y == First(floor) || Candidate(hop, floor, entries, y))
    decreases x
  {
    if x == First(floor) || Candidate(hop, floor, entries, x) {
      assert First(floor) <= x <= x;
    } else {
      LeftSteps(hop, floor, entries, x);
      LeastIsCandidate(hop, floor, entries, q, x - 1);
      var y: Epoch :| First(floor) <= y <= x - 1 && !Closed(hop, floor, entries, y, q) &&
                      (y == First(floor) || Candidate(hop, floor, entries, y));
    }
  }

  method EpochClosed(hop: Hop, floor: Option<Epoch>, entries: seq<Entry>, epoch: Epoch, q: nat) returns (closed: bool)
    ensures closed == Closed(hop, floor, entries, epoch, q)
  {
    hide Counts;
    var left := 0;
    ghost var p := (e: Entry) => Counts(hop, floor, e) && HasLeft(epoch, e);
    for e := 0 to |entries|
      invariant left == Count(entries[..e], p)
    {
      assert entries[..e + 1][..e] == entries[..e];
      if Counts(hop, floor, entries[e]) && HasLeft(epoch, entries[e]) {
        left := left + 1;
      }
    }
    assert entries[..|entries|] == entries;
    closed := left >= q;
  }

  /** What the search has found so far: the least epoch not closed among those tried. */
  ghost predicate BestSoFar(hop: Hop, floor: Option<Epoch>, entries: seq<Entry>, q: nat, n: nat, have: bool, best: Epoch) {
    && n <= |entries|
    && (have ==> First(floor) <= best && !Closed(hop, floor, entries, best, q))
    && (forall x: Epoch :: x == First(floor) && !Closed(hop, floor, entries, x, q) ==> have && best <= x)
    && (forall x: Epoch :: First(floor) <= x && Candidate(hop, floor, entries[..n], x) && !Closed(hop, floor, entries, x, q) ==>
          have && best <= x)
  }

  /** Tries one epoch. */
  method Try(hop: Hop, floor: Option<Epoch>, entries: seq<Entry>, q: nat, x: Epoch, have0: bool, best0: Epoch)
    returns (have: bool, best: Epoch)
    requires have0 ==> First(floor) <= best0 && !Closed(hop, floor, entries, best0, q)
    ensures have ==> First(floor) <= best && !Closed(hop, floor, entries, best, q)
    ensures have0 ==> have && best <= best0
    ensures First(floor) <= x && !Closed(hop, floor, entries, x, q) ==> have && best <= x
  {
    have, best := have0, best0;
    if x >= First(floor) && (!have || x < best) {
      var closed := EpochClosed(hop, floor, entries, x, q);
      if !closed {
        have, best := true, x;
      }
    }
  }

  /** The lowest epoch not closed. Only entries' epochs and their successors are tried, and that is enough. */
  method OpenEpoch(hop: Hop, floor: Option<Epoch>, entries: seq<Entry>, q: nat) returns (x: Epoch)
    ensures IsOpenEpoch(hop, floor, entries, q, x)
  {
    hide Counts, Closed, Candidate;
    if floor == Some(EPOCH_MAX) {
      return EPOCH_MAX;
    }
    var have: bool, best: Epoch := false, First(floor);
    have, best := Try(hop, floor, entries, q, best, have, best);
    NothingTried(hop, floor, entries, q, have, best);
    for e := 0 to |entries|
      invariant BestSoFar(hop, floor, entries, q, e, have, best)
    {
      ghost var have0, best0 := have, best;
      if Counts(hop, floor, entries[e]) {
        var c := entries[e].epoch;
        have, best := Try(hop, floor, entries, q, c, have, best);
        if c < EPOCH_MAX {
          have, best := Try(hop, floor, entries, q, c + 1, have, best);
        }
      }
      OneMoreTried(hop, floor, entries, q, e, have0, best0, have, best);
    }
    x := if have then best else EPOCH_MAX;
    SearchDone(hop, floor, entries, q, have, best);
  }

  lemma NothingTried(hop: Hop, floor: Option<Epoch>, entries: seq<Entry>, q: nat, have: bool, best: Epoch)
    requires have ==> First(floor) <= best && !Closed(hop, floor, entries, best, q)
    requires First(floor) <= EPOCH_MAX && (!Closed(hop, floor, entries, First(floor), q) ==> have && best <= First(floor))
    ensures BestSoFar(hop, floor, entries, q, 0, have, best)
  {
    hide Counts, Closed;
  }

  lemma OneMoreTried(hop: Hop, floor: Option<Epoch>, entries: seq<Entry>, q: nat, n: nat, have0: bool, best0: Epoch,
                     have: bool, best: Epoch)
    requires n < |entries| && BestSoFar(hop, floor, entries, q, n, have0, best0)
    requires have ==> First(floor) <= best && !Closed(hop, floor, entries, best, q)
    requires have0 ==> have && best <= best0
    requires Counts(hop, floor, entries[n]) ==>
               forall x: Epoch ::
                 (x == entries[n].epoch || x == entries[n].epoch + 1) && First(floor) <= x && !Closed(hop, floor, entries, x, q) ==>
                   have && best <= x
    ensures BestSoFar(hop, floor, entries, q, n + 1, have, best)
  {
    hide Counts, Closed;
    forall x: Epoch | First(floor) <= x && Candidate(hop, floor, entries[..n + 1], x) && !Closed(hop, floor, entries, x, q)
      ensures have && best <= x
    {
      var e :| e in entries[..n + 1] && Counts(hop, floor, e) && (e.epoch == x || e.epoch + 1 == x);
      if e in entries[..n] {
        assert Candidate(hop, floor, entries[..n], x);
      } else {
        assert e == entries[n];
      }
    }
  }

  lemma SearchDone(hop: Hop, floor: Option<Epoch>, entries: seq<Entry>, q: nat, have: bool, best: Epoch)
    requires BestSoFar(hop, floor, entries, q, |entries|, have, best)
    ensures IsOpenEpoch(hop, floor, entries, q, if have then best else EPOCH_MAX)
  {
    hide Counts, Closed, Candidate;
    assert entries[..|entries|] == entries;
    forall y: Epoch | First(floor) <= y && !Closed(hop, floor, entries, y, q)
      ensures have && best <= y
    {
      LeastIsCandidate(hop, floor, entries, q, y);
    }
  }

  // ---- the root's word, and the verdict -----------------------------------------------------

  /** The root's pass over the entries, `floor` the undo seen so far. */
  function RootScan(hop: Hop, root: Key, entries: seq<Entry>, floor: Option<Epoch>): (w: RootsWord) {
    if |entries| == 0 then Undone(floor)
    else if Counts(hop, floor, entries[0]) && RootEntry(hop, root, entries[0]) then
      if !entries[0].withdrawn then Settled else RootScan(hop, root, entries[1..], Some(entries[0].epoch))
    else RootScan(hop, root, entries[1..], floor)
  }

  /** The first epoch from `x` that is not closed, or the last. */
  ghost function OpenFrom(hop: Hop, floor: Option<Epoch>, entries: seq<Entry>, q: nat, x: nat): (y: Epoch)
    decreases EPOCH_MAX + 1 - x
  {
    if x > EPOCH_MAX then EPOCH_MAX
    else if !Closed(hop, floor, entries, x, q) then x
    else OpenFrom(hop, floor, entries, q, x + 1)
  }

  lemma {:induction false} OpenFromIsLeast(hop: Hop, floor: Option<Epoch>, entries: seq<Entry>, q: nat, x: nat)
    requires First(floor) <= x <= EPOCH_MAX + 1
    requires forall y: Epoch :: First(floor) <= y < x ==> Closed(hop, floor, entries, y, q)
    ensures IsOpenEpoch(hop, floor, entries, q, OpenFrom(hop, floor, entries, q, x))
    decreases EPOCH_MAX + 1 - x
  {
    hide Closed;
    if x <= EPOCH_MAX && Closed(hop, floor, entries, x, q) {
      OpenFromIsLeast(hop, floor, entries, q, x + 1);
    }
  }

  ghost function Open(hop: Hop, floor: Option<Epoch>, entries: seq<Entry>, q: nat): (x: Epoch)
    ensures IsOpenEpoch(hop, floor, entries, q, x)
  {
    OpenFromIsLeast(hop, floor, entries, q, First(floor));
    OpenFrom(hop, floor, entries, q, First(floor))
  }

  function Live(hop: Hop, floor: Option<Epoch>, entries: seq<Entry>): (n: nat) {
    Count(entries, e => Counts(hop, floor, e) && !e.withdrawn)
  }

  function Total(hop: Hop, floor: Option<Epoch>, entries: seq<Entry>): (n: nat) {
    Count(entries, e => Counts(hop, floor, e))
  }

  function CastIn(hop: Hop, floor: Option<Epoch>, entries: seq<Entry>, epoch: Epoch): (n: nat) {
    Count(entries, e => Counts(hop, floor, e) && e.epoch == epoch)
  }

  function WithdrawnIn(hop: Hop, floor: Option<Epoch>, entries: seq<Entry>, epoch: Epoch): (n: nat) {
    Count(entries, e => Counts(hop, floor, e) && e.epoch == epoch && e.withdrawn)
  }

  /** The votes' verdict once the root has spoken: revoked while `q` are live, else latched when `q` voted in the open
      epoch and fewer than `q` of them withdrew. */
  ghost function VotesVerdict(hop: Hop, floor: Option<Epoch>, entries: seq<Entry>, q: nat): (v: Verdict) {
    var epoch := Open(hop, floor, entries, q);
    if Live(hop, floor, entries) >= q then ByVotes
    else if CastIn(hop, floor, entries, epoch) >= q && WithdrawnIn(hop, floor, entries, epoch) < q then Latched(epoch)
    else Free
  }

  ghost function Judge(hop: Hop, root: Key, entries: seq<Entry>, q: nat): (v: Verdict) {
    match RootScan(hop, root, entries, None)
    case Settled => ByRoot
    case Undone(floor) => VotesVerdict(hop, floor, entries, q)
  }

  method RootPass(hop: Hop, root: Key, entries: seq<Entry>) returns (word: RootsWord)
    ensures word == RootScan(hop, root, entries, None)
  {
    hide Counts, RootEntry;
    var floor: Option<Epoch> := None;
    assert entries[0..] == entries;
    for e := 0 to |entries|
      invariant RootScan(hop, root, entries, None) == RootScan(hop, root, entries[e..], floor)
    {
      assert entries[e..][1..] == entries[e + 1..];
      if Counts(hop, floor, entries[e]) && RootEntry(hop, root, entries[e]) {
        if !entries[e].withdrawn {
          return Settled;
        }
        floor := Some(entries[e].epoch);
      }
    }
    word := Undone(floor);
  }

  lemma CastAtMostVotes(hop: Hop, floor: Option<Epoch>, entries: seq<Entry>, epoch: Epoch)
    ensures CastIn(hop, floor, entries, epoch) <= Total(hop, floor, entries)
  {
    CountMonotone(entries, e => Counts(hop, floor, e) && e.epoch == epoch, e => Counts(hop, floor, e));
  }

  method JudgeHop(hop: Hop, root: Key, entries: seq<Entry>, q: nat) returns (v: Verdict)
    ensures v == Judge(hop, root, entries, q)
  {
    hide Counts, RootScan, Open, IsOpenEpoch;
    var word := RootPass(hop, root, entries);
    if word == Settled {
      return ByRoot;
    }
    var floor := word.floor;
    var total, live := CountVotes(hop, floor, entries);
    if live >= q {
      return ByVotes;
    }
    CastAtMostVotes(hop, floor, entries, Open(hop, floor, entries, q));
    if total < q {
      return Free;
    }
    var epoch := OpenEpoch(hop, floor, entries, q);
    OpenEpochUnique(hop, floor, entries, q, epoch, Open(hop, floor, entries, q));
    var cast, left := CountEpoch(hop, floor, entries, epoch);
    v := if cast >= q && left < q then Latched(epoch) else Free;
  }

  method CountVotes(hop: Hop, floor: Option<Epoch>, entries: seq<Entry>) returns (total: nat, live: nat)
    ensures total == Total(hop, floor, entries) && live == Live(hop, floor, entries)
  {
    hide Counts;
    total, live := 0, 0;
    ghost var p, q := (e: Entry) => Counts(hop, floor, e), (e: Entry) => Counts(hop, floor, e) && !e.withdrawn;
    for e := 0 to |entries|
      invariant total == Count(entries[..e], p) && live == Count(entries[..e], q)
    {
      assert entries[..e + 1][..e] == entries[..e];
      if Counts(hop, floor, entries[e]) {
        total := total + 1;
        if !entries[e].withdrawn {
          live := live + 1;
        }
      }
    }
    assert entries[..|entries|] == entries;
  }

  method CountEpoch(hop: Hop, floor: Option<Epoch>, entries: seq<Entry>, epoch: Epoch) returns (cast: nat, left: nat)
    ensures cast == CastIn(hop, floor, entries, epoch) && left == WithdrawnIn(hop, floor, entries, epoch)
  {
    hide Counts;
    cast, left := 0, 0;
    ghost var p := (e: Entry) => Counts(hop, floor, e) && e.epoch == epoch;
    ghost var q := (e: Entry) => Counts(hop, floor, e) && e.epoch == epoch && e.withdrawn;
    for e := 0 to |entries|
      invariant cast == Count(entries[..e], p) && left == Count(entries[..e], q)
    {
      assert entries[..e + 1][..e] == entries[..e];
      if Counts(hop, floor, entries[e]) && entries[e].epoch == epoch {
        cast := cast + 1;
        if entries[e].withdrawn {
          left := left + 1;
        }
      }
    }
    assert entries[..|entries|] == entries;
  }
}
