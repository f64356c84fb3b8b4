/** What deleting rows does to the full walk and to the next anchor tick
    (backend/audit_monitor/anchor.py). */
module AuditTamper {
  import opened FiniteSets
  import opened Insertion
  import opened Optional
  import opened StringOrder
  import opened AuditRow
  import opened AuditChain
  import opened AuditMonitor

  /** The rows from index `lo` on, without those at the indices in `gone`. */
  function Rest(rows: seq<AuditRow>, gone: set<nat>, lo: nat): seq<AuditRow> {
    if |rows| <= lo then []
    else var n := |rows| - 1; Rest(rows[..n], gone, lo) + if n in gone then [] else [rows[n]]
  }

  /** `rows` without those at the indices in `gone`. */
  function Without(rows: seq<AuditRow>, gone: set<nat>): seq<AuditRow> { Rest(rows, gone, 0) }

  ghost predicate Indices(gone: set<nat>, n: nat) { forall i :: i in gone ==> i < n }

  lemma {:induction false} WithoutLength(rows: seq<AuditRow>, gone: set<nat>)
    requires Indices(gone, |rows|)
    ensures |Without(rows, gone)| == |rows| - |gone|
  {
    if rows == [] {
      assert gone == {};
    } else {
      var n := |rows| - 1;
      var less := gone - {n};
      WithoutLength(rows[..n], less);
      WithoutIgnores(rows[..n], gone, n);
      if n !in gone { assert less == gone; }
    }
  }

  lemma {:induction false} WithoutIgnores(rows: seq<AuditRow>, gone: set<nat>, n: nat)
    requires |rows| <= n
    ensures Without(rows, gone) == Without(rows, gone - {n})
  {
    if rows != [] { WithoutIgnores(rows[..|rows| - 1], gone, n); }
  }

  /** What is left below and from an index on make up what is left. */
  lemma {:induction false} WithoutSplits(rows: seq<AuditRow>, gone: set<nat>, lo: nat)
    requires lo <= |rows|
    ensures Without(rows, gone) == Without(rows[..lo], gone) + Rest(rows, gone, lo)
  {
    if lo == |rows| {
      assert rows[..lo] == rows;
    } else {
      WithoutSplits(rows[..|rows| - 1], gone, lo);
      assert rows[..|rows| - 1][..lo] == rows[..lo];
    }
  }

  /** The indices from `k` to the top. */
  ghost predicate IsTop(gone: set<nat>, k: nat, n: nat) {
    k <= n && forall i :: i in gone <==> k <= i < n
  }

  lemma SliceOfFront<T>(s: seq<T>, lo: nat, hi: nat, n: nat)
    requires lo <= hi <= n <= |s|
    ensures s[..n][lo..hi] == s[lo..hi]
  {
  }

  lemma {:induction false} RestTop(rows: seq<AuditRow>, gone: set<nat>, lo: nat, k: nat)
    requires lo <= k <= |rows| && forall i :: lo <= i < |rows| ==> (i in gone <==> k <= i)
    ensures Rest(rows, gone, lo) == rows[lo..k]
  {
    if |rows| > lo {
      var n := |rows| - 1;
      RestTop(rows[..n], gone, lo, if k <= n then k else n);
      if k == |rows| {
        assert rows[lo..k] == rows[..n][lo..n] + [rows[n]];
      } else {
        SliceOfFront(rows, lo, k, n);
      }
    }
  }

  /** The last surviving row, if any, and what survives below it. */
  lemma {:induction false} LastKept(rows: seq<AuditRow>, gone: set<nat>, lo: nat) returns (k: nat)
    requires Rest(rows, gone, lo) != []
    ensures lo <= k < |rows| && k !in gone && Rest(rows, gone, lo) == Rest(rows[..k], gone, lo) + [rows[k]]
    ensures forall i :: k < i < |rows| ==> i in gone
  {
    var n := |rows| - 1;
    if n in gone {
      k := LastKept(rows[..n], gone, lo);
      assert rows[..n][..k] == rows[..k];
    } else {
      k := n;
    }
  }

  lemma FrontOf(h: string -> string, rows: seq<AuditRow>, k: nat)
    requires Chained(h, rows, GENESIS) && k <= |rows|
    ensures Chained(h, rows[..k], GENESIS) && Inputs(rows[..k]) <= Inputs(rows)
    ensures k < |rows| ==> rows[k].prevHash == LastHash(rows[..k], GENESIS)
  {
    hide VerifyRowHash, HashInput;
    assert rows == rows[..k] + rows[k..];
    WalkSplits(h, rows[..k], rows[k..], GENESIS);
    if k < |rows| { assert LinkAt(h, rows, k, GENESIS); }
  }

  lemma SameLastHashBelow(h: string -> string, rows: seq<AuditRow>, i: nat, j: nat)
    requires HexDigest(h) && Chained(h, rows, GENESIS) && CollisionFree(h, Inputs(rows))
    requires i < j <= |rows|
    ensures LastHash(rows[..i], GENESIS) != LastHash(rows[..j], GENESIS)
  {
    hide VerifyRowHash, HashInput, Chained;
    PrevLength(h, rows, j - 1);
    if 0 < i { RowHashesDistinct(h, rows, i - 1, j - 1); }
  }

  /** Two fronts of a clean log that end in one hash are one front. */
  lemma SameLastHash(h: string -> string, rows: seq<AuditRow>, i: nat, j: nat)
    requires HexDigest(h) && Chained(h, rows, GENESIS) && CollisionFree(h, Inputs(rows))
    requires i <= |rows| && j <= |rows| && LastHash(rows[..i], GENESIS) == LastHash(rows[..j], GENESIS)
    ensures i == j
  {
    hide VerifyRowHash, HashInput, Chained, CollisionFree, LastHash;
    if i < j { SameLastHashBelow(h, rows, i, j); }
    if j < i { SameLastHashBelow(h, rows, j, i); }
  }

  lemma FewerInputs(h: string -> string, rows: seq<AuditRow>, k: nat)
    requires CollisionFree(h, Inputs(rows)) && k <= |rows|
    ensures CollisionFree(h, Inputs(rows[..k]))
  {
    hide HashInput;
    assert Inputs(rows[..k]) <= Inputs(rows);
  }

  /** What is left from `lo` on is the stretch up to `k`, and nothing of it is gone. */
  ghost predicate StretchKept(rows: seq<AuditRow>, gone: set<nat>, lo: nat, k: int) {
    lo <= k <= |rows| && Rest(rows, gone, lo) == rows[lo..k]
    && forall i :: lo <= i < |rows| ==> (i in gone <==> k <= i)
  }

  /** What is left of a clean log from some index on, after deletions, walks clean from there only
      if the rows taken are the top ones. */
  lemma {:induction false} CleanRestIsStretch(h: string -> string, rows: seq<AuditRow>, gone: set<nat>, lo: nat)
    requires HexDigest(h) && Chained(h, rows, GENESIS) && CollisionFree(h, Inputs(rows)) && lo <= |rows|
    requires Chained(h, Rest(rows, gone, lo), LastHash(rows[..lo], GENESIS))
    ensures exists k :: StretchKept(rows, gone, lo, k)
    decreases |rows|
  {
    hide VerifyRowHash, HashInput, Chained, Inputs, CollisionFree, Rest, LastHash;
    var rest := Rest(rows, gone, lo);
    if rest == [] {
      AllGone(rows, gone, lo);
      assert StretchKept(rows, gone, lo, lo);
    } else {
      var k := LastKept(rows, gone, lo);
      var low := Rest(rows[..k], gone, lo);
      FrontOf(h, rows, k);
      RestLinks(h, low, rows[k], LastHash(rows[..lo], GENESIS));
      assert rows[..k][..lo] == rows[..lo];
      FewerInputs(h, rows, k);
      CleanRestIsStretch(h, rows[..k], gone, lo);
      var m :| StretchKept(rows[..k], gone, lo, m);
      StretchHash(rows, lo, m);
      assert rows[..k][lo..m] == rows[lo..m];
      SameLastHash(h, rows, m, k);
      StretchGrows(rows, gone, lo, k);
    }
  }

  lemma StretchHash(rows: seq<AuditRow>, lo: nat, m: nat)
    requires lo <= m <= |rows|
    ensures LastHash(rows[lo..m], LastHash(rows[..lo], GENESIS)) == LastHash(rows[..m], GENESIS)
  {
  }

  lemma StretchGrows(rows: seq<AuditRow>, gone: set<nat>, lo: nat, k: nat)
    requires lo <= k < |rows| && k !in gone && StretchKept(rows[..k], gone, lo, k)
    requires Rest(rows, gone, lo) == Rest(rows[..k], gone, lo) + [rows[k]] && forall i :: k < i < |rows| ==> i in gone
    ensures StretchKept(rows, gone, lo, k + 1)
  {
    hide Rest;
    assert rows[lo..k + 1] == rows[..k][lo..k] + [rows[k]];
  }

  lemma RestLinks(h: string -> string, low: seq<AuditRow>, row: AuditRow, prev: string)
    requires Chained(h, low + [row], prev)
    ensures Chained(h, low, prev) && row.prevHash == LastHash(low, prev)
  {
    hide VerifyRowHash;
    WalkSplits(h, low, [row], prev);
    assert LinkAt(h, [row], 0, LastHash(low, prev));
  }

  lemma {:induction false} AllGone(rows: seq<AuditRow>, gone: set<nat>, lo: nat)
    requires Rest(rows, gone, lo) == []
    ensures forall i :: lo <= i < |rows| ==> i in gone
  {
    if |rows| > lo { AllGone(rows[..|rows| - 1], gone, lo); }
  }

  // ---- appends on top of what is left ----

  function AppendAll(h: string -> string, rows: seq<AuditRow>, events: seq<Event>): seq<AuditRow> {
    if events == [] then rows
    else var n := |events| - 1; Append(h, AppendAll(h, rows, events[..n]), events[n])
  }

  /** Each event arrives with a key above the head it meets. */
  ghost predicate Rising(h: string -> string, rows: seq<AuditRow>, events: seq<Event>) {
    forall i :: 0 <= i < |events| ==> AboveHead(h, AppendAll(h, rows, events[..i]), events[i])
                                      && FreshId(AppendAll(h, rows, events[..i]), events[i].id)
  }

  lemma EmptyChained(h: string -> string, rows: seq<AuditRow>, prev: string)
    requires rows == []
    ensures Chained(h, rows, prev)
  {}

  /** Every row carries a hash. */
  ghost predicate Hashed(rows: seq<AuditRow>) { forall r :: r in rows ==> r.rowHash != "" }

  ghost predicate Stamped(rows: seq<AuditRow>, events: seq<Event>) {
    |rows| == |events|
    && forall i :: 0 <= i < |events| ==> rows[i].timestamp == events[i].now && rows[i].id == events[i].id
  }

  /** One append above the head. */
  lemma OnTop(h: string -> string, rows: seq<AuditRow>, e: Event)
    requires HexDigest(h) && InKeyOrder(rows) && AboveHead(h, rows, e) && FreshId(rows, e.id)
    requires Hashed(rows)
    ensures var row := NewRow(h, e, HeadHash(rows));
            Append(h, rows, e) == rows + [row] && InKeyOrder(rows + [row])
            && Chained(h, [row], LastHash(rows, GENESIS)) && Hashed(rows + [row])
  {
    hide VerifyRowHash, NewRow, Before, Place;
    var row := NewRow(h, e, HeadHash(rows));
    NewRowVerifies(h, e, HeadHash(rows));
    PlaceAtEnd(rows, row);
    PlaceKeepsOrder(rows, row);
    if rows != [] { assert rows[|rows| - 1] in rows; }
    assert LinkAt(h, [row], 0, LastHash(rows, GENESIS));
  }

  lemma RisingSplit(h: string -> string, rows: seq<AuditRow>, events: seq<Event>)
    requires Rising(h, rows, events) && events != []
    ensures var n := |events| - 1;
            var all := AppendAll(h, rows, events[..n]);
            Rising(h, rows, events[..n]) && AboveHead(h, all, events[n]) && FreshId(all, events[n].id)
            && AppendAll(h, rows, events) == Append(h, all, events[n])
  {
    hide AboveHead, FreshId, Append;
    var n := |events| - 1;
    var front := events[..n];
    forall i | 0 <= i < n ensures AboveHead(h, AppendAll(h, rows, front[..i]), front[i])
                                  && FreshId(AppendAll(h, rows, front[..i]), front[i].id) {
      assert front[..i] == events[..i];
      assert AboveHead(h, AppendAll(h, rows, events[..i]), events[i]);
    }
    assert AboveHead(h, AppendAll(h, rows, events[..n]), events[n]);
  }

  /** Rising appends put a clean segment of their own on top, chained to the old head. */
  lemma {:induction false} AppendAllStacks(h: string -> string, rows: seq<AuditRow>, events: seq<Event>)
    returns (added: seq<AuditRow>)
    requires HexDigest(h) && InKeyOrder(rows) && Rising(h, rows, events)
    requires Hashed(rows)
    ensures AppendAll(h, rows, events) == rows + added && Stamped(added, events)
    ensures Chained(h, added, LastHash(rows, GENESIS))
    ensures InKeyOrder(rows + added) && Hashed(rows + added)
    decreases |events|
  {
    hide VerifyRowHash, NewRow, Chained, InKeyOrder, FreshId, Rising, AboveHead, Append, Hashed;
    if events == [] {
      added := [];
      EmptyChained(h, [], LastHash(rows, GENESIS));
      assert rows + [] == rows;
    } else {
      var n := |events| - 1;
      RisingSplit(h, rows, events);
      var below := AppendAllStacks(h, rows, events[..n]);
      var all := rows + below;
      var row := NewRow(h, events[n], HeadHash(all));
      OnTop(h, all, events[n]);
      NewRowVerifies(h, events[n], HeadHash(all));
      added := below + [row];
      assert all + [row] == rows + added;
      assert LastHash(all, GENESIS) == LastHash(below, LastHash(rows, GENESIS));
      WalkSplits(h, below, [row], LastHash(rows, GENESIS));
    }
  }

  lemma {:induction false} WithoutSublog(rows: seq<AuditRow>, gone: set<nat>)
    requires InKeyOrder(rows)
    ensures InKeyOrder(Without(rows, gone)) && forall r :: r in Without(rows, gone) ==> r in rows
  {
    hide Before;
    if rows != [] {
      var n := |rows| - 1;
      WithoutSublog(rows[..n], gone);
      var low := Without(rows[..n], gone);
      forall r | r in low ensures Before(r, rows[n]) {
        var i :| 0 <= i < n && rows[..n][i] == r;
        assert Before(rows[i], rows[n]);
      }
    }
  }

  /** The full walk, after rows were deleted and others appended, is clean exactly when the rows
      deleted were the top ones: truncation is what only an anchor can show. */
  lemma FullWalkAfterDeletion(h: string -> string, rows: seq<AuditRow>, gone: set<nat>, events: seq<Event>)
    requires HexDigest(h) && InKeyOrder(rows) && Chained(h, rows, GENESIS) && CollisionFree(h, Inputs(rows))
    requires Indices(gone, |rows|) && Rising(h, Without(rows, gone), events)
    ensures Chained(h, AppendAll(h, Without(rows, gone), events), GENESIS) <==>
            exists k :: 0 <= k <= |rows| && IsTop(gone, k, |rows|)
  {
    hide VerifyRowHash, Before, Chained, NewRow, AppendAll, HashInput, Rising;
    var rest := Without(rows, gone);
    RestReady(h, rows, gone);
    var added := AppendAllStacks(h, rest, events);
    WalkSplits(h, rest, added, GENESIS);
    if Chained(h, rest, GENESIS) {
      assert rows[..0] == [];
      CleanRestIsStretch(h, rows, gone, 0);
      var k :| StretchKept(rows, gone, 0, k);
      assert IsTop(gone, k, |rows|);
    }
    if exists k :: 0 <= k <= |rows| && IsTop(gone, k, |rows|) {
      var k :| 0 <= k <= |rows| && IsTop(gone, k, |rows|);
      RestTop(rows, gone, 0, k);
      assert rows[0..k] == rows[..k];
      FrontOf(h, rows, k);
    }
  }

  lemma RestReady(h: string -> string, rows: seq<AuditRow>, gone: set<nat>)
    requires HexDigest(h) && InKeyOrder(rows) && Chained(h, rows, GENESIS)
    ensures InKeyOrder(Without(rows, gone))
    ensures Hashed(Without(rows, gone)) && forall r :: r in Without(rows, gone) ==> r in rows
  {
    hide VerifyRowHash, Before, Chained;
    WithoutSublog(rows, gone);
    forall r | r in rows ensures r.rowHash != "" {
      var i :| 0 <= i < |rows| && rows[i] == r;
      PrevLength(h, rows, i);
    }
  }

  /** The new rows come after the anchored head in the order of the log. */
  ghost predicate AboveAnchor(a: Anchor, events: seq<Event>)
    requires a.headId.Some?
  {
    forall i :: 0 <= i < |events| ==>
      a.headTs.Tick() < events[i].now.Tick()
      || (a.headTs.Tick() == events[i].now.Tick() && Less(a.headId.value, events[i].id))
  }

  /** The segment the next tick reads: what is left above the anchored row, and what was appended. */
  lemma SegmentAfterDeletion(low: seq<AuditRow>, high: seq<AuditRow>, added: seq<AuditRow>, rows: seq<AuditRow>,
                             a: Anchor, k: nat, events: seq<Event>)
    requires InKeyOrder(rows) && AnchorsAt(a, rows, k) && !FromGenesis(Some(a))
    requires (forall r :: r in low ==> r in rows[..k + 1]) && (forall r :: r in high ==> r in rows[k + 1..])
    requires AboveAnchor(a, events) && Stamped(added, events)
    ensures Segment(low + high + added, Some(a)) == high + added
  {
    hide Before, KeyAbove, Above, InKeyOrder;
    var ts, id := a.headTs, a.headId.value;
    RestAbove(rows, k);
    FrontNotAbove(rows, k);
    AddedAbove(added, a, events);
    AboveNone(low, ts, id);
    AboveAll(high, ts, id);
    AboveAll(added, ts, id);
    AboveConcat(low + high, added, ts, id);
    AboveConcat(low, high, ts, id);
  }

  lemma AddedAbove(added: seq<AuditRow>, a: Anchor, events: seq<Event>)
    requires a.headId.Some? && AboveAnchor(a, events) && Stamped(added, events)
    ensures forall r :: r in added ==> KeyAbove(r, a.headTs, a.headId.value)
  {
    hide Less;
    forall r | r in added ensures KeyAbove(r, a.headTs, a.headId.value) {
      var i :| 0 <= i < |added| && added[i] == r;
    }
  }

  lemma {:induction false} RestSublog(rows: seq<AuditRow>, gone: set<nat>, lo: nat)
    requires lo <= |rows|
    ensures forall r :: r in Rest(rows, gone, lo) ==> r in rows[lo..]
  {
    if lo < |rows| {
      RestSublog(rows[..|rows| - 1], gone, lo);
      assert rows[lo..] == rows[..|rows| - 1][lo..] + [rows[|rows| - 1]];
    }
  }

  /** Of the indices above `k`, exactly a top part is gone. */
  ghost predicate TopGoneAbove(gone: set<nat>, k: nat, n: nat) {
    exists j :: GoneFrom(gone, k, j, n)
  }

  ghost predicate GoneFrom(gone: set<nat>, k: nat, j: int, n: nat) {
    k < j <= n && forall i :: k < i < n ==> (i in gone <==> j <= i)
  }

  ghost predicate AllGoneAbove(gone: set<nat>, k: nat, n: nat) { forall i :: k < i < n ==> i in gone }

  /** What is left above the anchored row walks clean from it exactly when a top part of it is gone. */
  lemma HighWalk(h: string -> string, rows: seq<AuditRow>, gone: set<nat>, k: nat)
    requires HexDigest(h) && Chained(h, rows, GENESIS) && CollisionFree(h, Inputs(rows)) && k < |rows|
    ensures Chained(h, Rest(rows, gone, k + 1), rows[k].rowHash) <==> TopGoneAbove(gone, k, |rows|)
  {
    hide VerifyRowHash, HashInput, Chained, Inputs, CollisionFree, Rest;
    var high := Rest(rows, gone, k + 1);
    assert LastHash(rows[..k + 1], GENESIS) == rows[k].rowHash;
    if Chained(h, high, rows[k].rowHash) {
      CleanRestIsStretch(h, rows, gone, k + 1);
      var j :| StretchKept(rows, gone, k + 1, j);
      assert GoneFrom(gone, k, j, |rows|);
    }
    if TopGoneAbove(gone, k, |rows|) {
      var j :| GoneFrom(gone, k, j, |rows|);
      RestTop(rows, gone, k + 1, j);
      FrontOf(h, rows, j);
      assert rows[..j] == rows[..k + 1] + rows[k + 1..j];
      WalkSplits(h, rows[..k + 1], rows[k + 1..j], GENESIS);
    }
  }

  /** What is left ends in the anchored row's hash, walked from there, unless nothing is left above
      the anchored row and that row is gone too. */
  lemma LastHashAfter(h: string -> string, rows: seq<AuditRow>, gone: set<nat>, k: nat)
    requires HexDigest(h) && Chained(h, rows, GENESIS) && CollisionFree(h, Inputs(rows)) && k < |rows|
    ensures LastHash(Without(rows, gone), GENESIS) == LastHash(Rest(rows, gone, k + 1), rows[k].rowHash)
       <==> !(k in gone && AllGoneAbove(gone, k, |rows|))
  {
    hide VerifyRowHash, HashInput, Chained, Inputs, CollisionFree, Rest;
    var high := Rest(rows, gone, k + 1);
    WithoutSplits(rows, gone, k + 1);
    if high == [] {
      AllGone(rows, gone, k + 1);
      FrontOf(h, rows, k + 1);
      FewerInputs(h, rows, k + 1);
      HeadGone(h, rows[..k + 1], gone);
    } else {
      var i := LastKept(rows, gone, k + 1);
    }
  }

  /** The rest ends in the old head's hash exactly when the head was not deleted. */
  lemma HeadGone(h: string -> string, rows: seq<AuditRow>, gone: set<nat>)
    requires HexDigest(h) && Chained(h, rows, GENESIS) && CollisionFree(h, Inputs(rows)) && rows != []
    ensures LastHash(Without(rows, gone), GENESIS) == rows[|rows| - 1].rowHash <==> |rows| - 1 !in gone
  {
    hide VerifyRowHash, HashInput, Chained;
    var n := |rows| - 1;
    if n in gone {
      assert rows[..n + 1] == rows;
      if Without(rows, gone) == [] {
        if GENESIS == rows[n].rowHash { SameLastHash(h, rows, 0, n + 1); }
      } else {
        var k := LastKept(rows, gone, 0);
        assert LastHash(rows[..k + 1], GENESIS) == rows[k].rowHash;
        if rows[k].rowHash == rows[n].rowHash { SameLastHash(h, rows, k + 1, n + 1); }
      }
    }
  }

  lemma WrongStart(h: string -> string, rows: seq<AuditRow>, p: string, q: string)
    requires rows != [] && Chained(h, rows, p)
    ensures Chained(h, rows, q) <==> p == q
  {
    hide VerifyRowHash;
    assert LinkAt(h, rows, 0, p);
    if p != q { assert !LinkAt(h, rows, 0, q); }
  }

  /** The segment of the next tick is clean exactly when above the anchored row only a top part is
      gone, and nothing was appended where the anchored row and all above it are gone. */
  lemma SegmentVerdict(h: string -> string, rows: seq<AuditRow>, gone: set<nat>, k: nat, added: seq<AuditRow>)
    requires HexDigest(h) && Chained(h, rows, GENESIS) && CollisionFree(h, Inputs(rows)) && k < |rows|
    requires Chained(h, added, LastHash(Without(rows, gone), GENESIS))
    ensures Chained(h, Rest(rows, gone, k + 1) + added, rows[k].rowHash) <==>
              TopGoneAbove(gone, k, |rows|) && (added == [] || !(k in gone && AllGoneAbove(gone, k, |rows|)))
  {
    hide *;
    var high := Rest(rows, gone, k + 1);
    WalkSplits(h, high, added, rows[k].rowHash);
    HighWalk(h, rows, gone, k);
    LastHashAfter(h, rows, gone, k);
    if added == [] {
      EmptyChained(h, added, LastHash(high, rows[k].rowHash));
    } else {
      WrongStart(h, added, LastHash(Without(rows, gone), GENESIS), LastHash(high, rows[k].rowHash));
    }
  }

  /** A clean log, anchored at the row `k`, possibly below its head. Any rows are deleted and others
      appended. The next tick reports a drop exactly when fewer rows are left than the anchor
      counted, and a fault exactly when above the anchored row something other than a top part is
      gone, or the anchored row and all above it are gone and something was appended. */
  lemma TickAfterDeletion(h: string -> string, rows: seq<AuditRow>, a: Anchor, k: nat, gone: set<nat>,
                          events: seq<Event>, b: Anchor)
    requires HexDigest(h) && InKeyOrder(rows) && Chained(h, rows, GENESIS) && CollisionFree(h, Inputs(rows))
    requires AnchorsAt(a, rows, k)
    requires Indices(gone, |rows|) && Rising(h, Without(rows, gone), events) && AboveAnchor(a, events)
    requires var now := AppendAll(h, Without(rows, gone), events);
             now != [] && Records(h, Some(a), |now|, now[|now| - 1], Segment(now, Some(a)), b)
    ensures var n := |rows| - |gone| + |events|;
            b.detail.dropped == if n < a.rowCount then Some((a.rowCount, n)) else None
    ensures b.detail.fault.Some? <==>
              !TopGoneAbove(gone, k, |rows|) || (events != [] && k in gone && AllGoneAbove(gone, k, |rows|))
    ensures b.ok <==> b.detail.dropped.None? && b.detail.fault.None?
  {
    hide VerifyRowHash, Before, Chained, NewRow, AppendAll, HashInput, Rising, Segment, Rest, InKeyOrder, Finds,
         TopGoneAbove, AllGoneAbove, CollisionFree, Hashed, AboveAnchor;
    RestReady(h, rows, gone);
    var added := AppendAllStacks(h, Without(rows, gone), events);
    WithoutLength(rows, gone);
    WithoutSplits(rows, gone, k + 1);
    RestSublog(rows[..k + 1], gone, 0);
    RestSublog(rows, gone, k + 1);
    assert rows[..k + 1][0..] == rows[..k + 1];
    NotFromGenesis(h, rows, a, k);
    SegmentAfterDeletion(Without(rows[..k + 1], gone), Rest(rows, gone, k + 1), added, rows, a, k, events);
    SegmentVerdict(h, rows, gone, k, added);
    FindsClean(h, Segment(AppendAll(h, Without(rows, gone), events), Some(a)), a.headHash, b.detail.fault);
  }

  lemma FindsClean(h: string -> string, rows: seq<AuditRow>, prev: string, detail: Option<Fault>)
    requires Finds(h, rows, prev, detail)
    ensures detail.None? <==> Chained(h, rows, prev)
  {
    hide Chained;
  }

  lemma NotFromGenesis(h: string -> string, rows: seq<AuditRow>, a: Anchor, k: nat)
    requires HexDigest(h) && Chained(h, rows, GENESIS) && CollisionFree(h, Inputs(rows)) && AnchorsAt(a, rows, k)
    ensures !FromGenesis(Some(a)) && ExpectedFirstPrev(Some(a)) == a.headHash == rows[k].rowHash
    ensures Baseline(Some(a)) == a.rowCount
  {
    hide VerifyRowHash, HashInput, Chained;
    PrevLength(h, rows, k);
    assert HashInput(rows[k]) in Inputs(rows);
  }

  /** With an exact anchor of the head: the alarm is raised exactly when more rows are gone than were
      appended, or the anchored head is among them. */
  lemma TickAfterExactAnchor(h: string -> string, rows: seq<AuditRow>, a: Anchor, gone: set<nat>,
                             events: seq<Event>, b: Anchor)
    requires HexDigest(h) && InKeyOrder(rows) && Chained(h, rows, GENESIS) && CollisionFree(h, Inputs(rows))
    requires rows != [] && AnchorsAt(a, rows, |rows| - 1) && a.rowCount == |rows|
    requires Indices(gone, |rows|) && Rising(h, Without(rows, gone), events) && AboveAnchor(a, events)
    requires var now := AppendAll(h, Without(rows, gone), events);
             now != [] && Records(h, Some(a), |now|, now[|now| - 1], Segment(now, Some(a)), b)
    ensures b.detail.dropped.Some? <==> |gone| > |events|
    ensures b.detail.fault.Some? <==> |rows| - 1 in gone && events != []
    ensures !b.ok <==> |gone| > |events| || |rows| - 1 in gone
  {
    hide *;
    var n := |rows| - 1;
    TickAfterDeletion(h, rows, a, n, gone, events, b);
    NothingAbove(gone, n);
    if n in gone { SubsetSize({n}, gone); }
  }

  lemma NothingAbove(gone: set<nat>, k: nat)
    ensures TopGoneAbove(gone, k, k + 1) && AllGoneAbove(gone, k, k + 1)
  {
    assert GoneFrom(gone, k, k + 1, k + 1);
  }
}
