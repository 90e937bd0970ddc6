/** Which quorum setting is in force, chain/root_log.c. */
module QuorumSetting {
  import opened Collections
  import opened ByteOrder

  /** A signed setting of the quorum, naming the one it supersedes. */
  datatype Setting = Setting(setter: Id32, k: Octet, supersedes: Id32)

  /** The hash of a setting, and which setters' acts count. */
  datatype Context = Context(hash: Setting -> Id32, counts: Option<(Id32, Id32) -> bool>)

  /** The answer: the quorum and the setting's id. */
  datatype Won = Won(k: Octet, id: Id32)

  predicate Counting(ctx: Context, s: Setting) {
    ctx.counts.None? || ctx.counts.value(s.setter, ctx.hash(s))
  }

  function Claim(ctx: Context, s: Setting): (w: Won) { Won(s.k, ctx.hash(s)) }

  /** The setting at `i` counts and no other that counts replaces it. */
  ghost predicate Current(ctx: Context, all: seq<Setting>, i: nat)
    requires i < |all|
  {
    Counting(ctx, all[i]) && forall j :: 0 <= j < |all| && j != i && Counting(ctx, all[j]) ==> all[j].supersedes != ctx.hash(all[i])
  }

  /** A higher quorum wins, and of two alike the lower id. */
  predicate Beats(a: Won, b: Won) {
    a.k > b.k || (a.k == b.k && Before(a.id, b.id))
  }

  /** The answer is a current setting that no current one beats. */
  ghost predicate Wins(ctx: Context, all: seq<Setting>, w: Won) {
    && (exists i :: 0 <= i < |all| && Current(ctx, all, i) && Claim(ctx, all[i]) == w)
    && forall i :: 0 <= i < |all| && Current(ctx, all, i) ==> !Beats(Claim(ctx, all[i]), w)
  }

  method Replaced(ctx: Context, all: seq<Setting>, counts: seq<bool>, i: nat) returns (yes: bool)
    requires i < |all| == |counts| && forall j :: 0 <= j < |all| ==> counts[j] == Counting(ctx, all[j])
    requires counts[i]
    ensures yes <==> !Current(ctx, all, i)
  {
    yes := false;
    var j := 0;
    while j < |all| && !yes
      invariant j <= |all|
      invariant yes ==> !Current(ctx, all, i)
      invariant !yes ==> forall x :: 0 <= x < j && x != i && Counting(ctx, all[x]) ==> all[x].supersedes != ctx.hash(all[i])
    {
      yes := j != i && counts[j] && all[j].supersedes == ctx.hash(all[i]);
      j := j + 1;
    }
  }

  /** Finds the setting in force, if there is one; nothing is answered past the scratch's capacity. */
  method Winner(ctx: Context, all: seq<Setting>, capacity: nat) returns (w: Option<Won>)
    ensures |all| > capacity ==> w == None
    ensures |all| <= capacity && w.None? ==> forall i :: 0 <= i < |all| ==> !Current(ctx, all, i)
    ensures w.Some? ==> Wins(ctx, all, w.value)
  {
    hide Beats, Current, Before;
    if |all| == 0 || |all| > capacity {
      return None;
    }
    var counts := seq(|all|, i requires 0 <= i < |all| => Counting(ctx, all[i]));
    var best: nat := |all|;
    for i := 0 to |all|
      invariant best < i || best == |all|
      invariant best == |all| ==> forall x :: 0 <= x < i ==> !Current(ctx, all, x)
      invariant best < i ==> Current(ctx, all, best) && forall x :: 0 <= x < i && Current(ctx, all, x) ==>
                               !Beats(Claim(ctx, all[x]), Claim(ctx, all[best]))
    {
      if !counts[i] {
        CurrentCounts(ctx, all, i);
        continue;
      }
      var replaced := Replaced(ctx, all, counts, i);
      if replaced {
        continue;
      }
      NotItself(Claim(ctx, all[i]));
      if best == |all| {
        best := i;
        continue;
      }
      if Beats(Claim(ctx, all[i]), Claim(ctx, all[best])) {
        forall x | 0 <= x < i && Current(ctx, all, x)
          ensures !Beats(Claim(ctx, all[x]), Claim(ctx, all[i]))
        {
          if Beats(Claim(ctx, all[x]), Claim(ctx, all[i])) {
            BeatsOn(Claim(ctx, all[x]), Claim(ctx, all[i]), Claim(ctx, all[best]));
          }
        }
        best := i;
      }
    }
    if best == |all| {
      return None;
    }
    w := Some(Claim(ctx, all[best]));
  }

  lemma CurrentCounts(ctx: Context, all: seq<Setting>, i: nat)
    requires i < |all|
    ensures Current(ctx, all, i) ==> Counting(ctx, all[i])
  {
  }

  lemma NotItself(a: Won)
    ensures !Beats(a, a)
  {
    Irreflexive(a.id);
  }

  lemma BeatsOn(a: Won, b: Won, c: Won)
    requires Beats(a, b) && Beats(b, c)
    ensures Beats(a, c)
  {
    if a.k == b.k == c.k {
      Transitive(a.id, b.id, c.id);
    }
  }

  /** There is one answer at most. */
  lemma WinnerUnique(ctx: Context, all: seq<Setting>, v: Won, w: Won)
    requires Wins(ctx, all, v) && Wins(ctx, all, w)
    ensures v == w
  {
    hide Current, Before;
    Trichotomy(v.id, w.id);
    assert !Beats(v, w) && !Beats(w, v);
  }

  /** The answer, over the fields: a current setting's quorum and id, no current one having a higher quorum, nor the same quorum
      and an earlier id. */
  lemma WinnerMeans(ctx: Context, all: seq<Setting>, w: Won)
    requires Wins(ctx, all, w)
    ensures exists i :: 0 <= i < |all| && Current(ctx, all, i) && all[i].k == w.k && ctx.hash(all[i]) == w.id
    ensures forall i :: 0 <= i < |all| && Current(ctx, all, i) ==>
              all[i].k <= w.k && (all[i].k == w.k ==> !Before(ctx.hash(all[i]), w.id))
  {
    hide Current, Before;
    forall i | 0 <= i < |all| && Current(ctx, all, i)
      ensures all[i].k <= w.k && (all[i].k == w.k ==> !Before(ctx.hash(all[i]), w.id))
    {
      assert !Beats(Claim(ctx, all[i]), w);
    }
  }

  /** Current, over the fields: its setter's act counts, and no other setting that counts names its hash. */
  lemma CurrentMeans(ctx: Context, all: seq<Setting>, i: nat)
    requires i < |all|
    ensures Current(ctx, all, i) <==>
            && (ctx.counts.None? || ctx.counts.value(all[i].setter, ctx.hash(all[i])))
            && forall j :: 0 <= j < |all| && j != i && all[j].supersedes == ctx.hash(all[i]) ==>
                 ctx.counts.Some? && !ctx.counts.value(all[j].setter, ctx.hash(all[j]))
  {
  }

  // ---- order and repetition -----------------------------------------------------------------------------

  /** No record names its own hash. */
  ghost predicate NoneNamesItself(ctx: Context, all: seq<Setting>) {
    forall s :: s in all ==> s.supersedes != ctx.hash(s)
  }

  /** The same, without positions. */
  ghost predicate StandsIn(ctx: Context, all: seq<Setting>, s: Setting) {
    Counting(ctx, s) && forall c :: c in all && Counting(ctx, c) ==> c.supersedes != ctx.hash(s)
  }

  lemma CurrentStands(ctx: Context, all: seq<Setting>, i: nat)
    requires i < |all| && NoneNamesItself(ctx, all)
    ensures Current(ctx, all, i) <==> StandsIn(ctx, all, all[i])
  {
    hide Counting;
    if Current(ctx, all, i) {
      forall c | c in all && Counting(ctx, c)
        ensures c.supersedes != ctx.hash(all[i])
      {
        var j :| 0 <= j < |all| && all[j] == c;
      }
    }
  }

  /** The answer is the same however the settings are ordered and however often each is held. */
  lemma WinnerSame(ctx: Context, s: seq<Setting>, t: seq<Setting>, w: Won)
    requires NoneNamesItself(ctx, s) && (forall x :: x in s <==> x in t) && Wins(ctx, s, w)
    ensures Wins(ctx, t, w)
  {
    hide Current, Beats, Counting;
    var i :| 0 <= i < |s| && Current(ctx, s, i) && Claim(ctx, s[i]) == w;
    CurrentStands(ctx, s, i);
    assert s[i] in t;
    var j :| 0 <= j < |t| && t[j] == s[i];
    CurrentStands(ctx, t, j);
    forall k | 0 <= k < |t| && Current(ctx, t, k)
      ensures !Beats(Claim(ctx, t[k]), w)
    {
      CurrentStands(ctx, t, k);
      assert t[k] in s;
      var l :| 0 <= l < |s| && s[l] == t[k];
      CurrentStands(ctx, s, l);
    }
  }

  /** A setting can only name one made before it. */
  ghost predicate MadeInOrder(ctx: Context, all: seq<Setting>, made: Setting -> nat) {
    forall s, c :: s in all && c in all && c.supersedes == ctx.hash(s) ==> made(s) < made(c)
  }

  /** Then something is in force as soon as something counts. */
  lemma SomethingInForce(ctx: Context, all: seq<Setting>, made: Setting -> nat, i: nat)
    requires MadeInOrder(ctx, all, made) && i < |all| && Counting(ctx, all[i])
    ensures exists j :: 0 <= j < |all| && Current(ctx, all, j)
  {
    hide Counting;
    var j := Latest(ctx, all, made, |all|, i);
    assert all[j] in all;
    assert Current(ctx, all, j);
  }

  lemma Latest(ctx: Context, all: seq<Setting>, made: Setting -> nat, n: nat, i: nat) returns (j: nat)
    requires i < n <= |all| && Counting(ctx, all[i])
    ensures j < n && Counting(ctx, all[j]) && forall x :: 0 <= x < n && Counting(ctx, all[x]) ==> made(all[x]) <= made(all[j])
  {
    hide Counting;
    j := i;
    var x := 0;
    while x < n
      invariant 0 <= x <= n && 0 <= j < n && Counting(ctx, all[j])
      invariant forall y :: 0 <= y < x && Counting(ctx, all[y]) ==> made(all[y]) <= made(all[j])
    {
      if Counting(ctx, all[x]) && made(all[x]) > made(all[j]) {
        j := x;
      }
      x := x + 1;
    }
  }
}
