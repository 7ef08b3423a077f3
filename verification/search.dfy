/** What the cursor's searches compute, stated over a stream `s` and a list of
    predicates, independently of any cursor object.

    A contiguous run of `preds` starts at `i` when the whole window
    `s[i .. i + |preds|]` lies inside the stream and every predicate holds on
    its instruction. Chained searches look for each predicate separately, each
    one strictly after (or, backwards, strictly before) the previous match. */
module Search {
  import opened Instructions

  /** Predicate `j` of `preds` holds on the `j`-th instruction of the window
      starting at `i`. */
  ghost predicate HoldsAt(s: seq<Instr>, preds: seq<Pred>, i: nat, j: nat)
  {
    j < |preds| && i + j < |s| && Holds(preds[j], s[i + j])
  }

  ghost predicate RunAt(s: seq<Instr>, preds: seq<Pred>, i: nat)
  {
    i + |preds| <= |s| && forall j :: 0 <= j < |preds| ==> HoldsAt(s, preds, i, j)
  }

  /** The smallest `i >= lo` at which a run of `preds` starts. */
  ghost function FirstRun(s: seq<Instr>, preds: seq<Pred>, lo: nat): (r: Option<nat>)
    decreases |s| + 1 - lo
    ensures r.Some? ==> lo <= r.value && RunAt(s, preds, r.value)
    ensures r.Some? ==> forall k :: lo <= k < r.value ==> !RunAt(s, preds, k)
    ensures r.None? ==> forall k :: lo <= k ==> !RunAt(s, preds, k)
  {
    if lo + |preds| > |s| then None
    else if RunAt(s, preds, lo) then Some(lo)
    else FirstRun(s, preds, lo + 1)
  }

  /** The largest `i <= hi` at which a run of `preds` starts. */
  ghost function LastRun(s: seq<Instr>, preds: seq<Pred>, hi: int): (r: Option<nat>)
    decreases hi + 1
    ensures r.Some? ==> r.value <= hi && RunAt(s, preds, r.value)
    ensures r.Some? ==> forall k :: r.value < k <= hi ==> !RunAt(s, preds, k)
    ensures r.None? ==> forall k: nat :: k <= hi ==> !RunAt(s, preds, k)
  {
    if hi < 0 then None
    else if RunAt(s, preds, hi) then Some(hi)
    else LastRun(s, preds, hi - 1)
  }

  /** `FirstRun` is determined by its characterisation. */
  lemma FirstRunIs(s: seq<Instr>, preds: seq<Pred>, lo: nat, k: nat)
    requires lo <= k && RunAt(s, preds, k)
    requires forall m :: lo <= m < k ==> !RunAt(s, preds, m)
    ensures FirstRun(s, preds, lo) == Some(k)
  {
  }

  /** `LastRun` is determined by its characterisation. */
  lemma LastRunIs(s: seq<Instr>, preds: seq<Pred>, hi: int, k: nat)
    requires k <= hi && RunAt(s, preds, k)
    requires forall m :: k < m <= hi ==> !RunAt(s, preds, m)
    ensures LastRun(s, preds, hi) == Some(k)
  {
  }

  /** Lowering the bound past positions where no run starts leaves the last
      run unchanged. */
  lemma LastRunSkip(s: seq<Instr>, preds: seq<Pred>, hi: int, hi': int)
    requires hi' <= hi
    requires forall k: nat :: hi' < k <= hi ==> !RunAt(s, preds, k)
    ensures LastRun(s, preds, hi) == LastRun(s, preds, hi')
  {
    var r := LastRun(s, preds, hi);
    if r.Some? {
      LastRunIs(s, preds, hi', r.value);
    }
  }

  // ---------------------------------------------------------------------------
  // Single-predicate searches, the steps of the chained searches

  /** `p` holds on instruction `q` of the stream. */
  ghost predicate Matches(s: seq<Instr>, p: Pred, q: nat)
  {
    q < |s| && Holds(p, s[q])
  }

  /** A single-predicate run at `i` is the predicate holding on `s[i]`. */
  lemma RunAtSingle(s: seq<Instr>, p: Pred, i: nat)
    ensures RunAt(s, [p], i) <==> Matches(s, p, i)
  {
    if Matches(s, p, i) {
      assert HoldsAt(s, [p], i, 0);
    }
    if RunAt(s, [p], i) {
      assert HoldsAt(s, [p], i, 0);
    }
  }

  /** The first instruction at or after `lo` that `p` holds on. */
  ghost function NextMatch(s: seq<Instr>, p: Pred, lo: nat): (r: Option<nat>)
    decreases |s| - lo
    ensures r.Some? ==> lo <= r.value && Matches(s, p, r.value)
    ensures r.Some? ==> forall q :: lo <= q < r.value ==> !Matches(s, p, q)
    ensures r.None? ==> forall q :: lo <= q ==> !Matches(s, p, q)
  {
    if lo >= |s| then None
    else if Holds(p, s[lo]) then Some(lo)
    else NextMatch(s, p, lo + 1)
  }

  /** The last instruction at or before `hi` that `p` holds on. */
  ghost function PrevMatch(s: seq<Instr>, p: Pred, hi: int): (r: Option<nat>)
    decreases hi + 1
    ensures r.Some? ==> r.value <= hi && Matches(s, p, r.value)
    ensures r.Some? ==> forall q :: r.value < q <= hi ==> !Matches(s, p, q)
    ensures r.None? ==> forall q: nat :: q <= hi ==> !Matches(s, p, q)
  {
    if hi < 0 then None
    else if Matches(s, p, hi) then Some(hi)
    else PrevMatch(s, p, hi - 1)
  }

  /** A single-predicate `TryGotoNext` finds exactly the next match. */
  lemma {:induction false} NextMatchIsRun(s: seq<Instr>, p: Pred, lo: nat)
    ensures FirstRun(s, [p], lo) == NextMatch(s, p, lo)
    decreases |s| - lo
  {
    if lo < |s| {
      RunAtSingle(s, p, lo);
      NextMatchIsRun(s, p, lo + 1);
    }
  }

  /** A single-predicate `TryGotoPrev` finds exactly the previous match. */
  lemma {:induction false} PrevMatchIsRun(s: seq<Instr>, p: Pred, hi: int)
    ensures LastRun(s, [p], hi) == PrevMatch(s, p, hi)
    decreases hi + 1
  {
    if hi >= 0 {
      RunAtSingle(s, p, hi);
      PrevMatchIsRun(s, p, hi - 1);
    }
  }

  /** The next match can only move right when the search starts further
      right. */
  lemma NextMatchMonotone(s: seq<Instr>, p: Pred, lo: nat, lo': nat)
    requires lo <= lo'
    ensures NextMatch(s, p, lo).None? ==> NextMatch(s, p, lo').None?
    ensures NextMatch(s, p, lo').Some? ==>
              (NextMatch(s, p, lo).Some? && NextMatch(s, p, lo).value <= NextMatch(s, p, lo').value)
  {
  }

  /** The previous match can only move left when the search starts further
      left. */
  lemma PrevMatchMonotone(s: seq<Instr>, p: Pred, hi: int, hi': int)
    requires hi' <= hi
    ensures PrevMatch(s, p, hi).None? ==> PrevMatch(s, p, hi').None?
    ensures PrevMatch(s, p, hi').Some? ==>
              (PrevMatch(s, p, hi).Some? && PrevMatch(s, p, hi').value <= PrevMatch(s, p, hi).value)
  {
  }

  /** Starting the search later, past positions `p` does not hold on, finds
      the same match. */
  lemma {:induction false} NextMatchSkip(s: seq<Instr>, p: Pred, lo: nat, lo': nat)
    requires lo <= lo'
    requires forall q :: lo <= q < lo' ==> !Matches(s, p, q)
    ensures NextMatch(s, p, lo) == NextMatch(s, p, lo')
    decreases lo' - lo
  {
    if lo < lo' {
      assert !Matches(s, p, lo);
      NextMatchSkip(s, p, lo + 1, lo');
    }
  }

  /** Starting the backward search earlier, past positions `p` does not
      hold on, finds the same match. */
  lemma {:induction false} PrevMatchSkip(s: seq<Instr>, p: Pred, hi: int, hi': int)
    requires hi' <= hi
    requires forall q: nat :: hi' < q <= hi ==> !Matches(s, p, q)
    ensures PrevMatch(s, p, hi) == PrevMatch(s, p, hi')
    decreases hi - hi'
  {
    if hi' < hi {
      if hi >= 0 {
        assert !Matches(s, p, hi);
      }
      PrevMatchSkip(s, p, hi - 1, hi');
    }
  }

  function Prepend(front: seq<nat>, r: Option<seq<nat>>): Option<seq<nat>>
  {
    if r.Some? then Some(front + r.value) else None
  }

  function Append(r: Option<seq<nat>>, back: seq<nat>): Option<seq<nat>>
  {
    if r.Some? then Some(r.value + back) else None
  }

  /** Recording a match at `i` extends the matches recorded in
      `p[lo..i]` at their end. */
  lemma RecordAtEnd(p: seq<nat>, lo: nat, i: nat, v: nat)
    requires lo <= i < |p|
    ensures p[i := v][lo..i + 1] == p[lo..i] + [v]
  {
    var q := p[i := v][lo..i + 1];
    assert forall k :: 0 <= k < i - lo ==> q[k] == p[lo..i][k];
  }

  /** Recording a match at `i` extends the matches recorded in
      `p[i + 1..hi]` at their front. */
  lemma RecordAtFront(p: seq<nat>, i: nat, hi: nat, v: nat)
    requires i < hi <= |p|
    ensures p[i := v][i..hi] == [v] + p[i + 1..hi]
  {
    var q := p[i := v][i..hi];
    assert forall k :: 1 <= k < hi - i ==> q[k] == p[i + 1..hi][k - 1];
  }

  /** A chain with nothing found yet is the chain still to be found. */
  lemma ChainStarts(r: Option<seq<nat>>)
    ensures Prepend([], r) == r && Append(r, []) == r
  {
    if r.Some? {
      assert [] + r.value == r.value && r.value + [] == r.value;
    }
  }

  /** A chain with nothing left to find is the matches found so far. */
  lemma ChainEnds(got: seq<nat>)
    ensures Prepend(got, Some([])) == Some(got) && Append(Some([]), got) == Some(got)
  {
    assert [] + got == got && got + [] == got;
  }

  /** `to` is the nearest instruction after `from` that `p` may have matched:
      `from < to` and `p` holds on no instruction strictly between them. */
  ghost predicate Nearest(s: seq<Instr>, p: Pred, from: int, to: int)
  {
    from < to && forall q: nat :: from < q < to ==> !Matches(s, p, q)
  }

  /** Every reported position is an instruction its predicate holds on. */
  ghost predicate ChainMatches(s: seq<Instr>, preds: seq<Pred>, k: nat, r: seq<nat>)
  {
    k + |r| <= |preds| && forall m :: 0 <= m < |r| ==> Matches(s, preds[k + m], r[m])
  }

  /** The position before `r[m]` in a forward chain started after `pos`. */
  function Prior(pos: int, r: seq<nat>, m: nat): int
    requires m <= |r|
  {
    if m == 0 then pos else r[m - 1]
  }

  /** The position after `r[m]` in a backward chain started before `pos`. */
  function Follow(pos: int, r: seq<nat>, m: nat): int
    requires m < |r|
  {
    if m == |r| - 1 then pos else r[m + 1]
  }

  // ---------------------------------------------------------------------------
  // Forward chained search (TryFindNext)

  /** The matches of `preds[k..]`, each the nearest match of its predicate
      strictly after the previous one, the first strictly after `pos`. */
  ghost function ChainNext(s: seq<Instr>, preds: seq<Pred>, k: nat, pos: nat): (r: Option<seq<nat>>)
    requires k <= |preds|
    ensures r.Some? ==> |r.value| == |preds| - k
    decreases |preds| - k
  {
    if k == |preds| then Some([])
    else
      match NextMatch(s, preds[k], pos + 1)
      case None => None
      case Some(i) => Prepend([i], ChainNext(s, preds, k + 1, i))
  }

  /** The outer loop of TryFindNext: anchor on the first predicate at or after
      `lo`; if the chain of the other predicates fails, retry from the next
      anchor. A result has one position per predicate and starts at or after
      `lo`; `FindNextFromFirst` shows where. */
  ghost function FindNextFrom(s: seq<Instr>, preds: seq<Pred>, lo: nat): (r: Option<seq<nat>>)
    requires |preds| >= 1
    ensures r.Some? ==> |r.value| == |preds| && lo <= r.value[0]
    decreases |s| + 1 - lo
  {
    match NextMatch(s, preds[0], lo)
    case None => None
    case Some(a) =>
      var rest := ChainNext(s, preds, 1, a);
      if rest.Some? then Some([a] + rest.value) else FindNextFrom(s, preds, a + 1)
  }

  /** An anchor at `q` from which the whole forward chain succeeds. */
  ghost predicate AnchorsNext(s: seq<Instr>, preds: seq<Pred>, q: nat)
    requires |preds| >= 1
  {
    Matches(s, preds[0], q) && ChainNext(s, preds, 1, q).Some?
  }

  /** The forward chained search finds the first anchor at or after `lo`
      from which the whole chain succeeds, and fails exactly when there is
      none. */
  lemma {:induction false} FindNextFromFirst(s: seq<Instr>, preds: seq<Pred>, lo: nat)
    requires |preds| >= 1
    ensures FindNextFrom(s, preds, lo).Some? ==> AnchorsNext(s, preds, FindNextFrom(s, preds, lo).value[0])
    ensures FindNextFrom(s, preds, lo).Some? ==>
              forall q :: lo <= q < FindNextFrom(s, preds, lo).value[0] ==> !AnchorsNext(s, preds, q)
    ensures FindNextFrom(s, preds, lo).None? ==> forall q :: lo <= q ==> !AnchorsNext(s, preds, q)
    decreases |s| + 1 - lo
  {
    var m := NextMatch(s, preds[0], lo);
    if m.Some? && ChainNext(s, preds, 1, m.value).None? {
      FindNextFromFirst(s, preds, m.value + 1);
    }
  }

  /** Skipping positions where no anchor succeeds leaves the outcome of the
      forward chained search unchanged. */
  lemma {:induction false} FindNextFromSkip(s: seq<Instr>, preds: seq<Pred>, lo: nat, lo': nat)
    requires |preds| >= 1 && lo <= lo'
    requires forall q :: lo <= q < lo' ==> !AnchorsNext(s, preds, q)
    ensures FindNextFrom(s, preds, lo) == FindNextFrom(s, preds, lo')
    decreases lo' - lo
  {
    var m := NextMatch(s, preds[0], lo);
    if m.Some? && m.value < lo' {
      assert !AnchorsNext(s, preds, m.value);
      FindNextFromSkip(s, preds, m.value + 1, lo');
    } else {
      NextMatchSkip(s, preds[0], lo, lo');
    }
  }

  /** The forward chained search from `lo0`, when no anchor in `[lo0, lo)`
      succeeds: it fails when `preds[0]` has no match from `lo` on, it is
      the chain of the next anchor `a` when that chain succeeds, and
      otherwise still no anchor in `[lo0, a]` succeeds. */
  lemma FindNextMissed(s: seq<Instr>, preds: seq<Pred>, lo0: nat, lo: nat)
    requires |preds| >= 1 && lo0 <= lo
    requires forall q :: lo0 <= q < lo ==> !AnchorsNext(s, preds, q)
    requires NextMatch(s, preds[0], lo).None?
    ensures FindNextFrom(s, preds, lo0).None?
  {
    FindNextFromSkip(s, preds, lo0, lo);
  }

  lemma FindNextFound(s: seq<Instr>, preds: seq<Pred>, lo0: nat, lo: nat, a: nat)
    requires |preds| >= 1 && lo0 <= lo
    requires forall q :: lo0 <= q < lo ==> !AnchorsNext(s, preds, q)
    requires NextMatch(s, preds[0], lo) == Some(a) && ChainNext(s, preds, 1, a).Some?
    ensures FindNextFrom(s, preds, lo0) == Some([a] + ChainNext(s, preds, 1, a).value)
  {
    FindNextFromSkip(s, preds, lo0, lo);
  }

  lemma FindNextPassed(s: seq<Instr>, preds: seq<Pred>, lo0: nat, lo: nat, a: nat)
    requires |preds| >= 1 && lo0 <= lo
    requires forall q :: lo0 <= q < lo ==> !AnchorsNext(s, preds, q)
    requires NextMatch(s, preds[0], lo) == Some(a) && !AnchorsNext(s, preds, a)
    ensures forall q :: lo0 <= q < a + 1 ==> !AnchorsNext(s, preds, q)
  {
    forall q | lo <= q < a
      ensures !AnchorsNext(s, preds, q)
    {
      assert !Matches(s, preds[0], q);
    }
  }

  /** One step of a forward chain already partly found: when `preds[k]` has
      no match after `pos` the whole chain fails; otherwise its nearest match
      `j` joins the matches found so far. */
  lemma ChainNextMiss(s: seq<Instr>, preds: seq<Pred>, k: nat, pos: nat, got: seq<nat>)
    requires k < |preds| && NextMatch(s, preds[k], pos + 1).None?
    ensures Prepend(got, ChainNext(s, preds, k, pos)).None?
  {
  }

  lemma ChainNextStep(s: seq<Instr>, preds: seq<Pred>, k: nat, pos: nat, got: seq<nat>, j: nat)
    requires k < |preds| && NextMatch(s, preds[k], pos + 1) == Some(j)
    ensures Prepend(got, ChainNext(s, preds, k, pos)) == Prepend(got + [j], ChainNext(s, preds, k + 1, j))
  {
    var rest := ChainNext(s, preds, k + 1, j);
    if rest.Some? {
      assert got + ([j] + rest.value) == got + [j] + rest.value;
    }
  }

  /** A chain that fails after `pos` also fails after every later `pos'`. */
  lemma {:induction false} ChainNextMonotone(s: seq<Instr>, preds: seq<Pred>, k: nat, pos: nat, pos': nat)
    requires k <= |preds| && pos <= pos'
    requires ChainNext(s, preds, k, pos).None?
    ensures ChainNext(s, preds, k, pos').None?
    decreases |preds| - k
  {
    NextMatchMonotone(s, preds[k], pos + 1, pos' + 1);
    var r := NextMatch(s, preds[k], pos + 1);
    var r' := NextMatch(s, preds[k], pos' + 1);
    if r'.Some? {
      ChainNextMonotone(s, preds, k + 1, r.value, r'.value);
    }
  }

  /** The restart in TryFindNext never changes the outcome: the search
      succeeds exactly when the chain from the FIRST anchor succeeds. */
  lemma {:induction false} FindNextNoRestart(s: seq<Instr>, preds: seq<Pred>, lo: nat)
    requires |preds| >= 1
    ensures FindNextFrom(s, preds, lo) ==
              match NextMatch(s, preds[0], lo)
              case None => None
              case Some(a) => Prepend([a], ChainNext(s, preds, 1, a))
    decreases |s| + 1 - lo
  {
    match NextMatch(s, preds[0], lo)
    case None =>
    case Some(a) =>
      if ChainNext(s, preds, 1, a).None? {
        FindNextNoRestart(s, preds, a + 1);
        var b := NextMatch(s, preds[0], a + 1);
        if b.Some? {
          ChainNextMonotone(s, preds, 1, a, b.value);
        }
      }
  }

  /** Stream `A X Y Z` where the first predicate holds on `A` and `Y` and
      the second on `Z`: the forward chained search reports `A` then `Z`,
      since from `A` the second predicate's search reaches `Z`. */
  lemma FindNextNearestAnchor(a: Instr, x: Instr, y: Instr, z: Instr, first: Instr -> bool, second: Instr -> bool)
    requires first(a) && !first(x) && first(y) && !first(z)
    requires !second(a) && !second(x) && !second(y) && second(z)
    ensures FindNextFrom([a, x, y, z], [Match(first), Match(second)], 0) == Some([0, 3])
  {
    var s := [a, x, y, z];
    var preds := [Match(first), Match(second)];
    assert NextMatch(s, preds[0], 0) == Some(0);
    assert NextMatch(s, preds[1], 1) == Some(3) by {
      assert !Matches(s, preds[1], 1) && !Matches(s, preds[1], 2) && Matches(s, preds[1], 3);
    }
    assert ChainNext(s, preds, 2, 3) == Some([]);
    assert [3] + [] == [3];
    assert ChainNext(s, preds, 1, 0) == Some([3]);
    assert [0] + [3] == [0, 3];
  }

  /** Forward links: `r[m]` is the nearest match of `preds[k + m]` after the
      previous position (after `pos` for the first). */
  ghost predicate LinksForward(s: seq<Instr>, preds: seq<Pred>, k: nat, pos: int, r: seq<nat>)
  {
    k + |r| <= |preds| && forall m :: 0 <= m < |r| ==> Nearest(s, preds[k + m], Prior(pos, r, m), r[m])
  }

  lemma LinksForwardAt(s: seq<Instr>, preds: seq<Pred>, k: nat, pos: int, r: seq<nat>, m: nat)
    requires LinksForward(s, preds, k, pos, r) && m < |r|
    ensures k + m < |preds| && Nearest(s, preds[k + m], Prior(pos, r, m), r[m])
  {
  }

  /** The matches a forward chain reports: one per predicate, each on an
      instruction its predicate holds on, each the nearest such instruction
      after the previous match (so strictly increasing). */
  lemma {:induction false} ChainNextSound(s: seq<Instr>, preds: seq<Pred>, k: nat, pos: nat)
    requires k <= |preds| && ChainNext(s, preds, k, pos).Some?
    ensures |ChainNext(s, preds, k, pos).value| == |preds| - k
    ensures ChainMatches(s, preds, k, ChainNext(s, preds, k, pos).value)
    ensures LinksForward(s, preds, k, pos, ChainNext(s, preds, k, pos).value)
    decreases |preds| - k
  {
    if k < |preds| {
      var i := NextMatch(s, preds[k], pos + 1).value;
      assert Nearest(s, preds[k], pos, i);
      ChainNextSound(s, preds, k + 1, i);
      var rest := ChainNext(s, preds, k + 1, i).value;
      var r := [i] + rest;
      assert ChainNext(s, preds, k, pos).value == r;
      assert r[0] == i && r[1..] == rest;
      ChainMatchesCons(s, preds, k, r);
      LinksForwardCons(s, preds, k, pos, r);
    }
  }

  /** A match of `preds[k]` in front of matches of `preds[k+1..]`. */
  lemma ChainMatchesCons(s: seq<Instr>, preds: seq<Pred>, k: nat, r: seq<nat>)
    requires k < |preds| && |r| > 0
    requires Matches(s, preds[k], r[0]) && ChainMatches(s, preds, k + 1, r[1..])
    ensures ChainMatches(s, preds, k, r)
  {
    forall m | 0 < m < |r|
      ensures Matches(s, preds[k + m], r[m])
    {
      assert r[m] == r[1..][m - 1];
    }
  }

  /** The nearest match of `preds[k]` after `pos`, in front of a forward
      chain linked from it. */
  lemma LinksForwardCons(s: seq<Instr>, preds: seq<Pred>, k: nat, pos: int, r: seq<nat>)
    requires k < |preds| && |r| > 0
    requires Nearest(s, preds[k], pos, r[0]) && LinksForward(s, preds, k + 1, r[0], r[1..])
    ensures LinksForward(s, preds, k, pos, r)
  {
    forall m | 0 < m < |r|
      ensures Nearest(s, preds[k + m], Prior(pos, r, m), r[m])
    {
      LinksForwardAt(s, preds, k + 1, r[0], r[1..], m - 1);
      assert r[m] == r[1..][m - 1];
      assert Prior(r[0], r[1..], m - 1) == Prior(pos, r, m);
    }
  }

  // ---------------------------------------------------------------------------
  // Backward chained search (TryFindPrev)

  /** The matches of `preds[..k]`, searched backwards: `preds[k-1]` nearest
      strictly before `pos`, `preds[k-2]` nearest strictly before that, and so
      on; returned in stream order. */
  ghost function ChainPrev(s: seq<Instr>, preds: seq<Pred>, k: nat, pos: int): (r: Option<seq<nat>>)
    requires k <= |preds|
    ensures r.Some? ==> |r.value| == k
    decreases k
  {
    if k == 0 then Some([])
    else
      match PrevMatch(s, preds[k - 1], pos - 1)
      case None => None
      case Some(i) => Append(ChainPrev(s, preds, k - 1, i), [i])
  }

  /** The outer loop of TryFindPrev: anchor on the last predicate at or
      before `hi`, retrying from the next anchor backwards on failure. A
      result has one position per predicate and ends at or before `hi`;
      `FindPrevFromLast` shows where. */
  ghost function FindPrevFrom(s: seq<Instr>, preds: seq<Pred>, hi: int): (r: Option<seq<nat>>)
    requires |preds| >= 1
    ensures r.Some? ==> |r.value| == |preds| && r.value[|preds| - 1] <= hi
    decreases hi + 1
  {
    match PrevMatch(s, preds[|preds| - 1], hi)
    case None => None
    case Some(b) =>
      var front := ChainPrev(s, preds, |preds| - 1, b);
      if front.Some? then Some(front.value + [b]) else FindPrevFrom(s, preds, b - 1)
  }

  /** An anchor at `q` from which the whole backward chain succeeds. */
  ghost predicate AnchorsPrev(s: seq<Instr>, preds: seq<Pred>, q: nat)
    requires |preds| >= 1
  {
    Matches(s, preds[|preds| - 1], q) && ChainPrev(s, preds, |preds| - 1, q).Some?
  }

  /** The backward chained search finds the last anchor at or before `hi`
      from which the whole chain succeeds, and fails exactly when there is
      none. */
  lemma {:induction false} FindPrevFromLast(s: seq<Instr>, preds: seq<Pred>, hi: int)
    requires |preds| >= 1
    ensures FindPrevFrom(s, preds, hi).Some? ==> AnchorsPrev(s, preds, FindPrevFrom(s, preds, hi).value[|preds| - 1])
    ensures FindPrevFrom(s, preds, hi).Some? ==>
              forall q: nat :: FindPrevFrom(s, preds, hi).value[|preds| - 1] < q <= hi ==> !AnchorsPrev(s, preds, q)
    ensures FindPrevFrom(s, preds, hi).None? ==> forall q: nat :: q <= hi ==> !AnchorsPrev(s, preds, q)
    decreases hi + 1
  {
    var m := PrevMatch(s, preds[|preds| - 1], hi);
    if m.Some? && ChainPrev(s, preds, |preds| - 1, m.value).None? {
      FindPrevFromLast(s, preds, m.value - 1);
    }
  }

  /** Skipping positions where no anchor succeeds leaves the outcome of the
      backward chained search unchanged. */
  lemma {:induction false} FindPrevFromSkip(s: seq<Instr>, preds: seq<Pred>, hi: int, hi': int)
    requires |preds| >= 1 && hi' <= hi
    requires forall q: nat :: hi' < q <= hi ==> !AnchorsPrev(s, preds, q)
    ensures FindPrevFrom(s, preds, hi) == FindPrevFrom(s, preds, hi')
    decreases hi - hi'
  {
    var m := PrevMatch(s, preds[|preds| - 1], hi);
    if m.Some? && hi' < m.value {
      assert !AnchorsPrev(s, preds, m.value);
      FindPrevFromSkip(s, preds, m.value as int - 1, hi');
    } else {
      PrevMatchSkip(s, preds[|preds| - 1], hi, hi');
    }
  }

  /** The backward chained search from `hi0`, when no anchor in
      `(hi, hi0]` succeeds, the mirror of the three lemmas above. */
  lemma FindPrevMissed(s: seq<Instr>, preds: seq<Pred>, hi0: int, hi: int)
    requires |preds| >= 1 && hi <= hi0
    requires forall q: nat :: hi < q <= hi0 ==> !AnchorsPrev(s, preds, q)
    requires PrevMatch(s, preds[|preds| - 1], hi).None?
    ensures FindPrevFrom(s, preds, hi0).None?
  {
    FindPrevFromSkip(s, preds, hi0, hi);
  }

  lemma FindPrevFound(s: seq<Instr>, preds: seq<Pred>, hi0: int, hi: int, b: nat)
    requires |preds| >= 1 && hi <= hi0
    requires forall q: nat :: hi < q <= hi0 ==> !AnchorsPrev(s, preds, q)
    requires PrevMatch(s, preds[|preds| - 1], hi) == Some(b) && ChainPrev(s, preds, |preds| - 1, b).Some?
    ensures FindPrevFrom(s, preds, hi0) == Some(ChainPrev(s, preds, |preds| - 1, b).value + [b])
  {
    FindPrevFromSkip(s, preds, hi0, hi);
  }

  lemma FindPrevPassed(s: seq<Instr>, preds: seq<Pred>, hi0: int, hi: int, b: nat)
    requires |preds| >= 1 && hi <= hi0
    requires forall q: nat :: hi < q <= hi0 ==> !AnchorsPrev(s, preds, q)
    requires PrevMatch(s, preds[|preds| - 1], hi) == Some(b) && !AnchorsPrev(s, preds, b)
    ensures forall q: nat :: b - 1 < q <= hi0 ==> !AnchorsPrev(s, preds, q)
  {
    forall q: nat | b < q <= hi
      ensures !AnchorsPrev(s, preds, q)
    {
      assert !Matches(s, preds[|preds| - 1], q);
    }
  }

  /** One step of a backward chain already partly found: when
      `preds[k-1]` has no match before `pos` the whole chain fails;
      otherwise its nearest match `j` joins the matches found so far. */
  lemma ChainPrevMiss(s: seq<Instr>, preds: seq<Pred>, k: nat, pos: int, got: seq<nat>)
    requires 0 < k <= |preds| && PrevMatch(s, preds[k - 1], pos - 1).None?
    ensures Append(ChainPrev(s, preds, k, pos), got).None?
  {
  }

  lemma ChainPrevStep(s: seq<Instr>, preds: seq<Pred>, k: nat, pos: int, got: seq<nat>, j: nat)
    requires 0 < k <= |preds| && PrevMatch(s, preds[k - 1], pos - 1) == Some(j)
    ensures Append(ChainPrev(s, preds, k, pos), got) == Append(ChainPrev(s, preds, k - 1, j), [j] + got)
  {
    var front := ChainPrev(s, preds, k - 1, j);
    if front.Some? {
      assert front.value + [j] + got == front.value + ([j] + got);
    }
  }

  /** A backward chain that fails before `pos` also fails before every
      earlier `pos'`. */
  lemma {:induction false} ChainPrevMonotone(s: seq<Instr>, preds: seq<Pred>, k: nat, pos: int, pos': int)
    requires k <= |preds| && pos' <= pos
    requires ChainPrev(s, preds, k, pos).None?
    ensures ChainPrev(s, preds, k, pos').None?
    decreases k
  {
    PrevMatchMonotone(s, preds[k - 1], pos - 1, pos' - 1);
    var r := PrevMatch(s, preds[k - 1], pos - 1);
    var r' := PrevMatch(s, preds[k - 1], pos' - 1);
    if r'.Some? {
      ChainPrevMonotone(s, preds, k - 1, r.value, r'.value);
    }
  }

  /** The restart in TryFindPrev never changes the outcome either. */
  lemma {:induction false} FindPrevNoRestart(s: seq<Instr>, preds: seq<Pred>, hi: int)
    requires |preds| >= 1
    ensures FindPrevFrom(s, preds, hi) ==
              match PrevMatch(s, preds[|preds| - 1], hi)
              case None => None
              case Some(b) => Append(ChainPrev(s, preds, |preds| - 1, b), [b])
    decreases hi + 1
  {
    var last := preds[|preds| - 1];
    match PrevMatch(s, last, hi)
    case None =>
    case Some(b) =>
      if ChainPrev(s, preds, |preds| - 1, b).None? {
        FindPrevNoRestart(s, preds, b - 1);
        var c := PrevMatch(s, last, b - 1);
        if c.Some? {
          ChainPrevMonotone(s, preds, |preds| - 1, b, c.value);
        }
      }
  }

  /** Backward links: `r[m]` is the nearest match of `preds[m]` before the
      next position (before `pos` for the last). */
  ghost predicate LinksBackward(s: seq<Instr>, preds: seq<Pred>, pos: int, r: seq<nat>)
  {
    |r| <= |preds| && forall m :: 0 <= m < |r| ==> Nearest(s, preds[m], r[m], Follow(pos, r, m))
  }

  /** The matches a backward chain reports: one per predicate of `preds[..k]`,
      each on an instruction its predicate holds on, each the nearest such
      instruction before the next match (so strictly increasing in stream
      order). */
  lemma {:induction false} ChainPrevSound(s: seq<Instr>, preds: seq<Pred>, k: nat, pos: int)
    requires k <= |preds| && ChainPrev(s, preds, k, pos).Some?
    ensures |ChainPrev(s, preds, k, pos).value| == k
    ensures ChainMatches(s, preds, 0, ChainPrev(s, preds, k, pos).value)
    ensures LinksBackward(s, preds, pos, ChainPrev(s, preds, k, pos).value)
    decreases k
  {
    if k > 0 {
      var i := PrevMatch(s, preds[k - 1], pos - 1).value;
      assert Nearest(s, preds[k - 1], i, pos);
      ChainPrevSound(s, preds, k - 1, i);
      var front := ChainPrev(s, preds, k - 1, i).value;
      var r := front + [i];
      assert ChainPrev(s, preds, k, pos).value == r;
      ChainMatchesSnoc(s, preds, i, front);
      LinksBackwardSnoc(s, preds, pos, i, front);
    }
  }

  /** Matches of `preds[..|front|]` followed by a match of the next
      predicate. */
  lemma ChainMatchesSnoc(s: seq<Instr>, preds: seq<Pred>, i: nat, front: seq<nat>)
    requires |front| < |preds| && Matches(s, preds[|front|], i) && ChainMatches(s, preds, 0, front)
    ensures ChainMatches(s, preds, 0, front + [i])
  {
    var r := front + [i];
    forall m | 0 <= m < |front|
      ensures Matches(s, preds[m], r[m])
    {
      assert r[m] == front[m];
    }
  }

  /** A backward chain linked to `i`, followed by `i`, the nearest match of
      its predicate before `pos`. */
  lemma LinksBackwardSnoc(s: seq<Instr>, preds: seq<Pred>, pos: int, i: nat, front: seq<nat>)
    requires |front| < |preds| && Nearest(s, preds[|front|], i, pos) && LinksBackward(s, preds, i, front)
    ensures LinksBackward(s, preds, pos, front + [i])
  {
    var r := front + [i];
    forall m | 0 <= m < |front|
      ensures Nearest(s, preds[m], r[m], Follow(pos, r, m))
    {
      assert r[m] == front[m];
      assert Follow(i, front, m) == Follow(pos, r, m);
    }
  }

  // ---------------------------------------------------------------------------
  // TryGotoPrev's starting point as written (see the README's Findings)

  datatype Probe = Matched | Mismatched | ReadPastEnd

  /** The inner loop of TryGotoPrev at start `i`, as written: a `null`
      predicate never looks at its instruction, so only a non-null predicate
      can read past the end of the stream (which throws), and only when the
      window starting at `i` overhangs it. */
  function ProbeAsWritten(s: seq<Instr>, preds: seq<Pred>, i: nat, j: nat): (r: Probe)
    ensures r == ReadPastEnd ==> i + |preds| > |s|
    decreases |preds| - j
  {
    if j >= |preds| then Matched
    else if preds[j].Wildcard? then ProbeAsWritten(s, preds, i, j + 1)
    else if i + j >= |s| then ReadPastEnd
    else if preds[j].f(s[i + j]) then ProbeAsWritten(s, preds, i, j + 1)
    else Mismatched
  }

  datatype PrevScan = Found(index: nat) | NotFound | Threw

  /** The clamp of TryGotoPrev as written: it leaves `i + len - 1 == count`
      possible, one past the last window that fits. It starts just before
      the cursor when that window ends within `count + 1`, and otherwise
      exactly at `count + 1 - len`. */
  function PrevStartAsWritten(index: int, len: nat, count: nat): (r: int)
    ensures r <= index - 1 && r + len <= count + 1
    ensures index - 1 + len <= count + 1 ==> r == index - 1
    ensures index - 1 + len > count + 1 ==> r + len == count + 1
  {
    var i := index - 1;
    var overhang := i + len - 1 - count;
    if overhang > 0 then i - overhang else i
  }

  /** The outer loop of TryGotoPrev as written, from start `i` downwards: it
      stops at the first start whose probe matches or throws, and a throw
      needs a window overhanging the stream. */
  function ScanBackAsWritten(s: seq<Instr>, preds: seq<Pred>, i: int): (r: PrevScan)
    ensures r.Found? ==> r.index <= i && ProbeAsWritten(s, preds, r.index, 0) == Matched
    ensures r.NotFound? ==> forall q: nat :: q <= i ==> ProbeAsWritten(s, preds, q, 0) == Mismatched
    ensures r.Threw? ==> i + |preds| > |s|
    decreases i + 1
  {
    if i <= -1 then NotFound
    else
      match ProbeAsWritten(s, preds, i, 0)
      case Matched => Found(i)
      case ReadPastEnd => Threw
      case Mismatched => ScanBackAsWritten(s, preds, i - 1)
  }

  /** TryGotoPrev as written, from a cursor at `index`: a match is strictly
      before the cursor, and a throw needs the window just before the cursor
      to overhang the stream. */
  function GotoPrevAsWritten(s: seq<Instr>, preds: seq<Pred>, index: nat): (r: PrevScan)
    ensures r.Found? ==> r.index < index && ProbeAsWritten(s, preds, r.index, 0) == Matched
    ensures r.Threw? ==> index - 1 + |preds| > |s|
  {
    ScanBackAsWritten(s, preds, PrevStartAsWritten(index, |preds|, |s|))
  }

  function AsScan(r: Option<nat>): PrevScan
  {
    if r.Some? then Found(r.value) else NotFound
  }

  /** Cursor at the end of a one-instruction stream, two predicates, the
      second non-null: the as-written clamp starts at index 0, whose window
      needs `instrs[1]`, and the read throws; no window of length 2 fits, so
      the intended answer is "not found". */
  lemma PrevClampReadsPastEnd(x: Instr)
    ensures GotoPrevAsWritten([x], [Wildcard, Match(y => true)], 1) == Threw
    ensures LastRun([x], [Wildcard, Match(y => true)], 0) == None
  {
  }

  /** Same position with the wildcard last: nothing is read past the end, and
      the as-written search reports a run at index 0 that overhangs the
      stream. */
  lemma PrevClampOverhangs(x: Instr)
    ensures GotoPrevAsWritten([x], [Match(y => true), Wildcard], 1) == Found(0)
    ensures !RunAt([x], [Match(y => true), Wildcard], 0)
  {
  }

  /** Inside the stream, the as-written probe is exactly the run test. */
  lemma {:induction false} ProbeInWindow(s: seq<Instr>, preds: seq<Pred>, i: nat, j: nat)
    requires i + |preds| <= |s| && j <= |preds|
    ensures ProbeAsWritten(s, preds, i, j) ==
              if forall q :: j <= q < |preds| ==> HoldsAt(s, preds, i, q) then Matched else Mismatched
    decreases |preds| - j
  {
    if j < |preds| {
      ProbeInWindow(s, preds, i, j + 1);
      assert HoldsAt(s, preds, i, j) <==> Holds(preds[j], s[i + j]);
    }
  }

  lemma {:induction false} ScanInWindow(s: seq<Instr>, preds: seq<Pred>, i: int)
    requires i + |preds| <= |s|
    ensures ScanBackAsWritten(s, preds, i) == AsScan(LastRun(s, preds, i))
    decreases i + 1
  {
    if i >= 0 {
      ProbeInWindow(s, preds, i, 0);
      ScanInWindow(s, preds, i - 1);
    }
  }

  /** Whenever the first window tried fits in the stream, and in particular
      for every single-predicate search (so TryFindPrev is unaffected), the
      as-written TryGotoPrev agrees with the intended one. */
  lemma PrevAsWrittenAgrees(s: seq<Instr>, preds: seq<Pred>, index: nat)
    requires index <= |s| && index + |preds| <= |s| + 1
    ensures GotoPrevAsWritten(s, preds, index) == AsScan(LastRun(s, preds, index - 1))
  {
    ScanInWindow(s, preds, index - 1);
  }
}
