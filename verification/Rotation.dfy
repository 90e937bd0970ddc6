/** Reporting the deficit a window at a time, chain/manifest.c: a cursor that goes round. */
module Rotation {
  import opened ByteOrder
  import opened ManifestForm
  import opened Deficit

  datatype Pair = Pair(cap: Id32, grantee: Id32)

  function PairOf(m: Missing): (p: Pair) { Pair(m.cap, m.grantee) }

  /** The issuer's run of the deficit, in table order. */
  function Owed(d: seq<Missing>, issuer: Id32): (run: seq<Missing>) {
    if |d| == 0 then []
    else Owed(d[..|d| - 1], issuer) + if d[|d| - 1].issuer == issuer then [d[|d| - 1]] else []
  }

  /** It is the issuer's entries and no others'. */
  lemma {:induction false} OwedIs(d: seq<Missing>, issuer: Id32)
    ensures forall m :: m in Owed(d, issuer) <==> m in d && m.issuer == issuer
  {
    if |d| > 0 {
      var n := |d| - 1;
      OwedIs(d[..n], issuer);
      assert d == d[..n] + [d[n]];
    }
  }

  function Least(a: nat, b: nat): (m: nat) { if a < b then a else b }

  lemma {:induction false} OwedPrefix(d: seq<Missing>, issuer: Id32, n: nat)
    requires n <= |d|
    ensures |Owed(d[..n], issuer)| <= |Owed(d, issuer)| && Owed(d[..n], issuer) == Owed(d, issuer)[..|Owed(d[..n], issuer)|]
    decreases |d| - n
  {
    if n == |d| {
      assert d[..n] == d;
    } else {
      assert d[..n + 1][..n] == d[..n];
      OwedPrefix(d, issuer, n + 1);
    }
  }

  /** `k` past `from`, going round at `total`. */
  function Turn(from: nat, k: nat, total: nat): (p: nat)
    requires from < total && k <= total
    ensures p < total
  {
    if from + k < total then from + k else from + k - total
  }

  /** How many of the first `pos` positions fall in a window of `cap` from `from`, going round at `total`. */
  function InWindow(pos: nat, from: nat, total: nat, cap: nat): (n: nat)
    requires from < total && pos <= total
  {
    var wrapped := if cap + from > total then Least(Least(pos, from), cap + from - total) else 0;
    wrapped + if pos > from then Least(pos - from, cap) else 0
  }

  /** Writes the window from `from` into `out`; also how many did not fit, and where the next window starts. */
  method DeficitFrom(d: seq<Missing>, issuer: Id32, from0: nat, out: array<Pair>) returns (written: nat, dropped: nat, next: nat)
    modifies out
    ensures var run := Owed(d, issuer);
            if |run| == 0 then written == dropped == next == 0
            else
              && written == Least(|run|, out.Length) && dropped == |run| - written && next == Turn(from0 % |run|, written, |run|)
              && forall k :: 0 <= k < written ==> out[k] == PairOf(run[Turn(from0 % |run|, k, |run|)])
  {
    var total := CountOwed(d, issuer);
    if total == 0 {
      return 0, 0, 0;
    }
    var from := from0 % total;
    written := Window(d, issuer, from, total, out);
    dropped := total - written;
    next := (from + written) % total;
    Once(from + written, total);
  }

  method CountOwed(d: seq<Missing>, issuer: Id32) returns (total: nat)
    ensures total == |Owed(d, issuer)|
  {
    total := 0;
    for i := 0 to |d|
      invariant total == |Owed(d[..i], issuer)|
    {
      assert d[..i + 1][..i] == d[..i];
      if d[i].issuer == issuer {
        total := total + 1;
      }
    }
    assert d[..|d|] == d;
  }

  method Window(d: seq<Missing>, issuer: Id32, from: nat, total: nat, out: array<Pair>) returns (written: nat)
    requires total == |Owed(d, issuer)| && from < total
    modifies out
    ensures written == Least(total, out.Length)
    ensures forall k :: 0 <= k < written ==> out[k] == PairOf(Owed(d, issuer)[Turn(from, k, total)])
  {
    hide InWindow, Turn, Owed;
    WindowEnds(from, total, out.Length);
    OwedStep([], issuer, 0);
    written := 0;
    var pos := 0;
    ghost var run := Owed(d, issuer);
    for i := 0 to |d|
      invariant pos == |Owed(d[..i], issuer)| <= total
      invariant written == InWindow(pos, from, total, out.Length)
      invariant forall k :: 0 <= k < total && k < out.Length && Turn(from, k, total) < pos ==>
                  out[k] == PairOf(run[Turn(from, k, total)])
    {
      OwedPrefix(d, issuer, i + 1);
      OwedStep(d, issuer, i);
      if d[i].issuer != issuer {
        continue;
      }
      var rel := (pos + total - from) % total;
      Once(pos + total - from, total);
      WindowStep(pos, rel, from, total, out.Length);
      pos := pos + 1;
      if rel >= out.Length {
        continue;
      }
      out[rel] := PairOf(d[i]);
      written := written + 1;
    }
    assert d[..|d|] == d;
  }

  lemma OwedStep(d: seq<Missing>, issuer: Id32, i: nat)
    ensures Owed([], issuer) == []
    ensures i < |d| ==> Owed(d[..i + 1], issuer) == Owed(d[..i], issuer) + if d[i].issuer == issuer then [d[i]] else []
  {
    if i < |d| {
      assert d[..i + 1][..i] == d[..i];
    }
  }

  lemma WindowEnds(from: nat, total: nat, cap: nat)
    requires from < total
    ensures InWindow(0, from, total, cap) == 0 && InWindow(total, from, total, cap) == Least(total, cap)
  {
  }

  /** Position `pos` is in the window when its offset `rel` is, and only that offset reaches it. */
  lemma WindowStep(pos: nat, rel: nat, from: nat, total: nat, cap: nat)
    requires pos < total && from < total && rel == if pos >= from then pos - from else pos + total - from
    ensures InWindow(pos + 1, from, total, cap) == InWindow(pos, from, total, cap) + if rel < cap then 1 else 0
    ensures forall k :: 0 <= k < total ==> (Turn(from, k, total) == pos <==> k == rel)
  {
  }

  lemma Once(x: nat, total: nat)
    requires x < 2 * total
    ensures x % total == if x < total then x else x - total
  {
    if x >= total {
      assert x == total + (x - total);
    }
  }

  // ---- going round --------------------------------------------------------------------------------------

  /** Where the `j`th window starts when each call starts where the last one said. */
  function Cursor(from: nat, step: nat, total: nat, j: nat): (c: nat)
    requires from < total && step <= total
    ensures c < total
    decreases j
  {
    if j == 0 then from else Cursor(Turn(from, step, total), step, total, j - 1)
  }

  lemma {:induction false} WindowAt(from: nat, step: nat, total: nat, offset: nat) returns (j: nat, k: nat)
    requires from < total && 0 < step <= total && offset < total
    ensures k < step && j * step <= offset
    ensures Turn(Cursor(from, step, total, j), k, total) == Turn(from, offset, total)
    decreases offset
  {
    if offset < step {
      j, k := 0, offset;
    } else {
      var i, l := WindowAt(Turn(from, step, total), step, total, offset - step);
      j, k := i + 1, l;
      assert (i + 1) * step == i * step + step;
    }
  }

  /** Nothing is starved: whatever the window, each pair owed is reported by one of the calls that a single lap takes. */
  lemma EveryPairReported(from: nat, step: nat, total: nat, p: nat) returns (j: nat, k: nat)
    requires from < total && 0 < step <= total && p < total
    ensures k < step && j * step < total
    ensures Turn(Cursor(from, step, total, j), k, total) == p
  {
    var offset := if p >= from then p - from else p + total - from;
    j, k := WindowAt(from, step, total, offset);
  }
}
