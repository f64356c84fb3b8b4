/** Incremental verification of the audit log and its anchors (backend/audit_monitor/anchor.py). */
module AuditMonitor {
  import opened Insertion
  import opened Optional
  import opened StringOrder
  import opened AuditRow
  import opened AuditChain

  /** What verify_detail tells: the fault the walk found, and a drop of the row count (from, to). */
  datatype Detail = Detail(fault: Option<Fault>, dropped: Option<(nat, nat)>)

  datatype Anchor = Anchor(headId: Option<string>, headTs: Timestamp, headHash: string,
                           rowCount: nat, ok: bool, detail: Detail)

  /** The tick starts over from genesis: there is no usable earlier anchor. */
  predicate FromGenesis(latest: Option<Anchor>) {
    latest.None? || latest.value.headHash == "" || latest.value.headHash == GENESIS || latest.value.headId.None?
  }

  predicate KeyAbove(row: AuditRow, ts: Timestamp, id: string) {
    ts.Tick() < row.timestamp.Tick() || (ts.Tick() == row.timestamp.Tick() && Less(id, row.id))
  }

  function Above(rows: seq<AuditRow>, ts: Timestamp, id: string): seq<AuditRow> {
    if rows == [] then []
    else (if KeyAbove(rows[0], ts, id) then [rows[0]] else []) + Above(rows[1..], ts, id)
  }

  /** The rows a tick walks: all of them, or those strictly above the anchored head. */
  function Segment(rows: seq<AuditRow>, latest: Option<Anchor>): seq<AuditRow> {
    if FromGenesis(latest) then rows else Above(rows, latest.value.headTs, latest.value.headId.value)
  }

  function ExpectedFirstPrev(latest: Option<Anchor>): string {
    if FromGenesis(latest) then GENESIS else latest.value.headHash
  }

  function Baseline(latest: Option<Anchor>): nat { if FromGenesis(latest) then 0 else latest.value.rowCount }

  function Latest(anchors: seq<Anchor>): Option<Anchor> {
    if anchors == [] then None else Some(anchors[|anchors| - 1])
  }

  /** What a tick records, from the three things it read. */
  ghost predicate Records(h: string -> string, latest: Option<Anchor>, total: nat, head: AuditRow,
                          segment: seq<AuditRow>, a: Anchor) {
    && a.headId == Some(head.id) && a.headTs == head.timestamp && a.headHash == head.rowHash
    && a.rowCount == total
    && (a.ok <==> Chained(h, segment, ExpectedFirstPrev(latest)) && total >= Baseline(latest))
    && Finds(h, segment, ExpectedFirstPrev(latest), a.detail.fault)
    && a.detail.dropped == if total < Baseline(latest) then Some((Baseline(latest), total)) else None
  }

  /** The table audit_anchor, in the order its rows were written. */
  class AnchorTable {
    var anchors: seq<Anchor>

    constructor ()
      ensures anchors == []
    {
      anchors := [];
    }

    /** run_anchor. Its count, head and segment queries are separate statements, so each may see
        another state of the log. */
    method RunAnchor(h: string -> string, countView: seq<AuditRow>, headView: seq<AuditRow>,
                     segmentView: seq<AuditRow>) returns (result: Option<Anchor>)
      modifies this
      ensures headView == [] ==> result.None? && anchors == old(anchors)
      ensures headView != [] ==> result.Some? && anchors == old(anchors) + [result.value]
      ensures headView != [] ==>
                Records(h, Latest(old(anchors)), |countView|, headView[|headView| - 1],
                        Segment(segmentView, Latest(old(anchors))), result.value)
    {
      var total := |countView|;
      if headView == [] { return None; }
      var head := headView[|headView| - 1];
      var latest := Latest(anchors);
      var rows, expectedFirstPrev, baselineCount;
      if FromGenesis(latest) {
        rows, expectedFirstPrev, baselineCount := segmentView, GENESIS, 0;
      } else {
        rows := Above(segmentView, latest.value.headTs, latest.value.headId.value);
        expectedFirstPrev, baselineCount := latest.value.headHash, latest.value.rowCount;
      }
      var ok, fault := VerifyWalk(h, rows, expectedFirstPrev);
      var dropped := None;
      if total < baselineCount {
        ok := false;
        dropped := Some((baselineCount, total));
      }
      var anchor := Anchor(Some(head.id), head.timestamp, head.rowHash, total, ok, Detail(fault, dropped));
      anchors := anchors + [anchor];
      result := Some(anchor);
    }
  }

  // ---- the segment query ----

  lemma {:induction false} AboveAll(rows: seq<AuditRow>, ts: Timestamp, id: string)
    requires forall r :: r in rows ==> KeyAbove(r, ts, id)
    ensures Above(rows, ts, id) == rows
  {
    if rows != [] { AboveAll(rows[1..], ts, id); }
  }

  lemma {:induction false} AboveConcat(a: seq<AuditRow>, b: seq<AuditRow>, ts: Timestamp, id: string)
    ensures Above(a + b, ts, id) == Above(a, ts, id) + Above(b, ts, id)
  {
    if a == [] {
      assert a + b == b;
    } else {
      assert (a + b)[1..] == a[1..] + b;
      AboveConcat(a[1..], b, ts, id);
    }
  }

  lemma {:induction false} AboveNone(rows: seq<AuditRow>, ts: Timestamp, id: string)
    requires forall r :: r in rows ==> !KeyAbove(r, ts, id)
    ensures Above(rows, ts, id) == []
  {
    if rows != [] { AboveNone(rows[1..], ts, id); }
  }

  /** `a` anchors the row at `k`. */
  ghost predicate AnchorsAt(a: Anchor, rows: seq<AuditRow>, k: nat) {
    k < |rows| && a.headId == Some(rows[k].id) && a.headTs == rows[k].timestamp && a.headHash == rows[k].rowHash
  }

  lemma KeyIsBefore(a: AuditRow, b: AuditRow)
    ensures KeyAbove(b, a.timestamp, a.id) <==> Before(a, b)
    ensures !Before(a, a)
  {
    if Before(a, a) { LessAsymmetric(a.id, a.id); }
  }

  lemma RestAbove(rows: seq<AuditRow>, k: nat)
    requires InKeyOrder(rows) && k < |rows|
    ensures forall r :: r in rows[k + 1..] ==> KeyAbove(r, rows[k].timestamp, rows[k].id)
  {
    hide Before, KeyAbove;
    forall r | r in rows[k + 1..] ensures KeyAbove(r, rows[k].timestamp, rows[k].id) {
      var j :| 0 <= j < |rows| - k - 1 && rows[k + 1..][j] == r;
      assert Before(rows[k], rows[k + 1 + j]);
      KeyIsBefore(rows[k], r);
    }
  }

  lemma FrontNotAbove(rows: seq<AuditRow>, k: nat)
    requires InKeyOrder(rows) && k < |rows|
    ensures forall r :: r in rows[..k + 1] ==> !KeyAbove(r, rows[k].timestamp, rows[k].id)
  {
    hide Before, KeyAbove;
    forall r | r in rows[..k + 1] ensures !KeyAbove(r, rows[k].timestamp, rows[k].id) {
      var j :| 0 <= j <= k && rows[j] == r;
      KeyIsBefore(rows[k], r);
      KeyIsBefore(r, r);
      if j < k { BeforeAsymmetric(rows[j], rows[k]); }
    }
  }

  /** Of a log in key order the query returns exactly the rows behind the anchored one. */
  lemma SegmentIsRest(rows: seq<AuditRow>, a: Anchor, k: nat)
    requires InKeyOrder(rows) && AnchorsAt(a, rows, k) && !FromGenesis(Some(a))
    ensures Segment(rows, Some(a)) == rows[k + 1..]
  {
    hide FromGenesis, InKeyOrder, KeyAbove, Above;
    RestAbove(rows, k);
    FrontNotAbove(rows, k);
    var ts, id := rows[k].timestamp, rows[k].id;
    AboveAll(rows[k + 1..], ts, id);
    AboveNone(rows[..k + 1], ts, id);
    AboveConcat(rows[..k + 1], rows[k + 1..], ts, id);
    assert rows == rows[..k + 1] + rows[k + 1..];
  }

  lemma FrontChained(h: string -> string, rows: seq<AuditRow>, k: nat)
    requires Chained(h, rows, GENESIS) && k <= |rows|
    ensures Chained(h, rows[..k], GENESIS)
  {
    hide VerifyRowHash;
    assert rows == rows[..k] + rows[k..];
    WalkSplits(h, rows[..k], rows[k..], GENESIS);
  }

  /** What the incremental walk leaves out is exactly the front up to the anchored row: the whole
      log is clean if and only if that front is and the segment walks clean. */
  lemma IncrementalSplitsFull(h: string -> string, rows: seq<AuditRow>, a: Anchor, k: nat)
    requires InKeyOrder(rows) && AnchorsAt(a, rows, k)
    ensures Chained(h, rows, GENESIS) <==>
              Chained(h, rows[..k + 1], GENESIS) && Chained(h, Segment(rows, Some(a)), ExpectedFirstPrev(Some(a)))
  {
    hide VerifyRowHash, Above, InKeyOrder, Chained;
    if FromGenesis(Some(a)) {
      if Chained(h, rows, GENESIS) { FrontChained(h, rows, k + 1); }
    } else {
      SegmentIsRest(rows, a, k);
      assert rows == rows[..k + 1] + rows[k + 1..];
      WalkSplits(h, rows[..k + 1], rows[k + 1..], GENESIS);
    }
  }

  // ---- what a series of ok anchors certifies ----

  /** One tick: the count it read, and the log as its head query and its segment query saw it. */
  datatype Tick = Tick(total: nat, head: seq<AuditRow>, segment: seq<AuditRow>)

  /** The anchors are what the ticks recorded, one after another. */
  ghost predicate Recorded(h: string -> string, ticks: seq<Tick>, anchors: seq<Anchor>) {
    |ticks| == |anchors| && forall i :: 0 <= i < |ticks| ==> RecordedAt(h, ticks, anchors, i)
  }

  ghost predicate RecordedAt(h: string -> string, ticks: seq<Tick>, anchors: seq<Anchor>, i: nat)
    requires i < |ticks| == |anchors|
  {
    && ticks[i].head != []
    && Records(h, Latest(anchors[..i]), ticks[i].total, ticks[i].head[|ticks[i].head| - 1],
               Segment(ticks[i].segment, Latest(anchors[..i])), anchors[i])
  }

  ghost predicate AllOk(anchors: seq<Anchor>) { forall i :: 0 <= i < |anchors| ==> anchors[i].ok }

  /** Between the ticks, and between the reads of one, rows were added or changed by anyone in any
      way, but none at or below an anchored head. */
  ghost predicate AnchoredRowsKept(ticks: seq<Tick>) {
    && (forall i :: 0 <= i < |ticks| ==> InKeyOrder(ticks[i].segment) && ticks[i].head <= ticks[i].segment)
    && (forall i :: 0 < i < |ticks| ==> ticks[i - 1].head <= ticks[i].segment)
  }

  /** The last tick before a log certifies its rows up to the anchored one. */
  ghost predicate Continues(ticks: seq<Tick>, rows: seq<AuditRow>) {
    InKeyOrder(rows) && (ticks != [] ==> ticks[|ticks| - 1].head <= rows)
  }

  /** After ticks that certified everything up to the anchored head, a clean segment means a clean log. */
  lemma CertifiedFront(h: string -> string, ticks: seq<Tick>, anchors: seq<Anchor>, rows: seq<AuditRow>)
    requires Recorded(h, ticks, anchors) && Continues(ticks, rows)
    requires ticks != [] ==> Chained(h, ticks[|ticks| - 1].head, GENESIS)
    ensures Chained(h, Segment(rows, Latest(anchors)), ExpectedFirstPrev(Latest(anchors))) <==>
        Chained(h, rows, GENESIS)
  {
    hide VerifyRowHash, Chained, InKeyOrder, Above, Finds, FromGenesis;
    if ticks == [] {
      NoAnchorFromGenesis();
    } else {
      var n := |ticks| - 1;
      var head := ticks[n].head;
      assert RecordedAt(h, ticks, anchors, n);
      assert rows[..|head|] == head && rows[|head| - 1] == head[|head| - 1];
      IncrementalSplitsFull(h, rows, anchors[n], |head| - 1);
    }
  }

  /** However rows above the anchored heads were written or altered in the meantime: if every anchor
      so far is ok, the log that each tick walked is clean from genesis. */
  lemma {:induction false} OkAnchorsCertify(h: string -> string, ticks: seq<Tick>, anchors: seq<Anchor>)
    requires Recorded(h, ticks, anchors) && AnchoredRowsKept(ticks) && AllOk(anchors)
    ensures forall i :: 0 <= i < |ticks| ==> Chained(h, ticks[i].segment, GENESIS)
  {
    hide VerifyRowHash, Chained, InKeyOrder, Segment, Finds, FromGenesis, Latest;
    if ticks != [] {
      var n := |ticks| - 1;
      var before, earlier := ticks[..n], anchors[..n];
      RecordedFront(h, ticks, anchors);
      OkAnchorsCertify(h, before, earlier);
      if n > 0 {
        assert before[n - 1] == ticks[n - 1];
        var rows, head := ticks[n - 1].segment, ticks[n - 1].head;
        FrontChained(h, rows, |head|);
        assert rows[..|head|] == head;
      }
      CertifiedFront(h, before, earlier, ticks[n].segment);
      assert RecordedAt(h, ticks, anchors, n) && anchors[n].ok;
      forall i | 0 <= i < |ticks| ensures Chained(h, ticks[i].segment, GENESIS) {
        if i < n { assert before[i] == ticks[i]; }
      }
    }
  }

  lemma RecordedFront(h: string -> string, ticks: seq<Tick>, anchors: seq<Anchor>)
    requires Recorded(h, ticks, anchors) && ticks != []
    ensures Recorded(h, ticks[..|ticks| - 1], anchors[..|ticks| - 1])
  {
    hide Records, Latest;
    var n := |ticks| - 1;
    forall i | 0 <= i < n ensures RecordedAt(h, ticks[..n], anchors[..n], i) {
      assert RecordedAt(h, ticks, anchors, i);
      assert anchors[..n][..i] == anchors[..i];
    }
  }

  /** So after ok anchors the next tick's walk decides exactly what a walk of the whole log decides. */
  lemma NextTickDecidesAll(h: string -> string, ticks: seq<Tick>, anchors: seq<Anchor>,
                           rows: seq<AuditRow>, total: nat, head: AuditRow, b: Anchor)
    requires Recorded(h, ticks, anchors) && AnchoredRowsKept(ticks) && AllOk(anchors) && Continues(ticks, rows)
    requires Records(h, Latest(anchors), total, head, Segment(rows, Latest(anchors)), b)
    ensures b.detail.fault.None? <==> Chained(h, rows, GENESIS)
    ensures b.ok <==> Chained(h, rows, GENESIS) && total >= Baseline(Latest(anchors))
  {
    hide VerifyRowHash, Chained, InKeyOrder, Segment, FromGenesis, Latest, Recorded;
    OkAnchorsCertify(h, ticks, anchors);
    if ticks != [] {
      var last := ticks[|ticks| - 1];
      FrontChained(h, last.segment, |last.head|);
      assert last.segment[..|last.head|] == last.head;
    }
    CertifiedFront(h, ticks, anchors, rows);
  }

  // ---- ticks interleaved with appends ----

  /** How far the running tick has come: nothing read, the count read, the head read. */
  datatype Phase = Idle | Counted(total: nat) | Headed(total: nat, head: AuditRow)

  /** History of one recorded anchor: where its head stands in the log, how much of the log there
      was, and the rows it walked. */
  datatype Mark = Mark(head: nat, hi: nat, walked: seq<AuditRow>)

  datatype System = System(log: seq<AuditRow>, anchors: seq<Anchor>, phase: Phase, marks: seq<Mark>)

  ghost predicate Init(s: System) { s == System([], [], Idle, []) }

  /** An honest write_audit: a fresh id, a key above the head's. */
  ghost predicate AppendStep(h: string -> string, s: System, t: System, e: Event) {
    FreshId(s.log, e.id) && AboveHead(h, s.log, e) && t == s.(log := Append(h, s.log, e))
  }

  ghost predicate CountStep(s: System, t: System) {
    s.phase.Idle? && t == s.(phase := Counted(|s.log|))
  }

  ghost predicate HeadStep(s: System, t: System) {
    s.phase.Counted?
    && t == s.(phase := if s.log == [] then Idle else Headed(s.phase.total, s.log[|s.log| - 1]))
  }

  /** The first place of a row, or the length of the log when it is not there. */
  function IndexOf(log: seq<AuditRow>, row: AuditRow): (k: nat)
    ensures k <= |log| && (k < |log| ==> log[k] == row)
    ensures row in log ==> k < |log|
  {
    if log == [] || log[0] == row then 0 else 1 + IndexOf(log[1..], row)
  }

  /** The mark a tick leaves, computed from what it read. */
  function NewMark(s: System): Mark
    requires s.phase.Headed?
  {
    Mark(IndexOf(s.log, s.phase.head), |s.log|, Segment(s.log, Latest(s.anchors)))
  }

  /** The last of a tick's reads, and the anchor: whatever it read, it records. */
  function Anchored(s: System, a: Anchor): System
    requires s.phase.Headed?
  {
    s.(anchors := s.anchors + [a], phase := Idle, marks := s.marks + [NewMark(s)])
  }

  /** What run_anchor records when its last read sees the log as it is now. */
  ghost predicate TickRecords(h: string -> string, s: System, a: Anchor)
    requires s.phase.Headed?
  {
    Records(h, Latest(s.anchors), s.phase.total, s.phase.head, Segment(s.log, Latest(s.anchors)), a)
  }

  ghost predicate AnchorStep(h: string -> string, s: System, t: System, a: Anchor) {
    s.phase.Headed? && TickRecords(h, s, a) && t == Anchored(s, a)
  }

  /** A tick that fails part-way records nothing. */
  ghost predicate AbandonStep(s: System, t: System) { t == s.(phase := Idle) }

  ghost predicate Step(h: string -> string, s: System, t: System) {
    || (exists e :: AppendStep(h, s, t, e))
    || CountStep(s, t) || HeadStep(s, t) || AbandonStep(s, t)
    || (exists a :: AnchorStep(h, s, t, a))
  }

  ghost predicate Trace(h: string -> string, states: seq<System>) {
    states != [] && Init(states[0])
    && forall i :: 0 <= i < |states| - 1 ==> Step(h, states[i], states[i + 1])
  }

  /** Where the walk of a mark began, if it walked the top of the log there was. */
  function Lo(m: Mark): int { m.hi - |m.walked| }

  /** The mark's walk went over the rows [Lo(m), m.hi) of the log, and no others. */
  ghost predicate Walked(log: seq<AuditRow>, m: Mark) { 0 <= Lo(m) && m.hi <= |log| && m.walked == log[Lo(m)..m.hi] }

  /** The anchor is clean, names a row of the log, and counts no more than the rows up to it. */
  ghost predicate GoodAnchor(log: seq<AuditRow>, a: Anchor, m: Mark) {
    && a.ok && a.detail == Detail(None, None) && AnchorsAt(a, log, m.head)
    && a.rowCount <= m.head + 1 <= m.hi && Walked(log, m)
  }

  /** The index just behind the head anchored before the `i`-th anchor; the start of the log where
      there is none, or its hash is the genesis value. */
  function Resume(anchors: seq<Anchor>, marks: seq<Mark>, i: nat): nat
    requires i <= |marks| == |anchors|
  {
    if i == 0 || anchors[i - 1].headHash == GENESIS then 0 else marks[i - 1].head + 1
  }

  /** Each walk begins there, not before and not after. */
  ghost predicate Seamless(anchors: seq<Anchor>, marks: seq<Mark>) {
    |marks| == |anchors| && forall i :: 0 <= i < |marks| ==> Lo(marks[i]) == Resume(anchors, marks, i)
  }

  ghost predicate AllGood(log: seq<AuditRow>, anchors: seq<Anchor>, marks: seq<Mark>) {
    |marks| == |anchors| && forall i :: 0 <= i < |anchors| ==> GoodAnchor(log, anchors[i], marks[i])
  }

  ghost predicate Inv(h: string -> string, s: System) {
    && InKeyOrder(s.log) && Chained(h, s.log, GENESIS)
    && (forall r :: r in s.log ==> r.rowHash != "")
    && AllGood(s.log, s.anchors, s.marks) && Seamless(s.anchors, s.marks)
    && (s.phase.Idle? || Baseline(Latest(s.anchors)) <= s.phase.total <= |s.log|)
    && (s.phase.Headed? ==> exists k :: 0 <= k < |s.log| && s.phase.total <= k + 1 && s.log[k] == s.phase.head)
  }

  lemma AllGoodGrows(log: seq<AuditRow>, more: seq<AuditRow>, anchors: seq<Anchor>, marks: seq<Mark>)
    requires AllGood(log, anchors, marks)
    ensures AllGood(log + more, anchors, marks)
  {
    forall i | 0 <= i < |anchors| ensures GoodAnchor(log + more, anchors[i], marks[i]) {
      assert GoodAnchor(log, anchors[i], marks[i]);
      assert (log + more)[Lo(marks[i])..marks[i].hi] == log[Lo(marks[i])..marks[i].hi];
    }
  }

  lemma AppendKeepsInv(h: string -> string, s: System, t: System, e: Event)
    requires HexDigest(h) && Inv(h, s) && AppendStep(h, s, t, e)
    ensures Inv(h, t)
  {
    hide VerifyRowHash, NewRow, Before, Place, FromGenesis, AllGood, Seamless, Baseline;
    var row := NewRow(h, e, HeadHash(s.log));
    NewRowVerifies(h, e, HeadHash(s.log));
    PlaceKeepsOrder(s.log, row);
    PlaceAtEnd(s.log, row);
    assert s.log != [] ==> s.log[|s.log| - 1] in s.log;
    assert LinkAt(h, [row], 0, LastHash(s.log, GENESIS));
    WalkSplits(h, s.log, [row], GENESIS);
    AllGoodGrows(s.log, [row], s.anchors, s.marks);
    if s.phase.Headed? {
      var k :| 0 <= k < |s.log| && s.phase.total <= k + 1 && s.log[k] == s.phase.head;
      assert t.log[k] == t.phase.head;
    }
  }

  /** No anchor counts more rows than the log holds. */
  lemma BaselineBelow(log: seq<AuditRow>, anchors: seq<Anchor>, marks: seq<Mark>)
    requires AllGood(log, anchors, marks)
    ensures Baseline(Latest(anchors)) <= |log|
  {
    hide AnchorsAt;
    if anchors != [] { assert GoodAnchor(log, anchors[|anchors| - 1], marks[|marks| - 1]); }
  }

  lemma ReadKeepsInv(h: string -> string, s: System, t: System)
    requires Inv(h, s) && (CountStep(s, t) || HeadStep(s, t) || AbandonStep(s, t))
    ensures Inv(h, t)
  {
    hide InKeyOrder, Chained, AllGood, Seamless, Baseline, Latest;
    BaselineBelow(s.log, s.anchors, s.marks);
    if t.phase.Headed? { assert t.log[|t.log| - 1] == t.phase.head; }
  }

  lemma SameRowSameIndex(rows: seq<AuditRow>, i: nat, j: nat)
    requires InKeyOrder(rows) && i < |rows| && j < |rows| && rows[i] == rows[j]
    ensures i == j
  {
    if i < j { BeforeAsymmetric(rows[i], rows[j]); }
    else if j < i { BeforeAsymmetric(rows[j], rows[i]); }
  }

  lemma NoAnchorFromGenesis()
    ensures FromGenesis(None)
  {}

  lemma AnchoredStart(log: seq<AuditRow>, a: Anchor, k: nat)
    requires AnchorsAt(a, log, k) && log[k].rowHash != ""
    ensures FromGenesis(Some(a)) <==> a.headHash == GENESIS
  {
  }

  /** The walk of an honest log is clean; it is over the top of the log, and begins where the
      anchored head ends. */
  lemma WalkIsClean(h: string -> string, s: System)
    requires Inv(h, s)
    ensures Chained(h, Segment(s.log, Latest(s.anchors)), ExpectedFirstPrev(Latest(s.anchors)))
    ensures var n := |s.log| - |Segment(s.log, Latest(s.anchors))|;
            && |s.marks| == |s.anchors| && n == Resume(s.anchors, s.marks, |s.marks|)
            && s.log[n..] == Segment(s.log, Latest(s.anchors))
  {
    hide InKeyOrder, Chained, Above, Seamless, FromGenesis;
    var latest := Latest(s.anchors);
    if s.anchors == [] {
      NoAnchorFromGenesis();
    } else {
      var last, mark := s.anchors[|s.anchors| - 1], s.marks[|s.marks| - 1];
      assert GoodAnchor(s.log, last, mark);
      assert s.log[mark.head].rowHash != "";
      AnchoredStart(s.log, last, mark.head);
    }
    if !FromGenesis(latest) {
      var last, mark := s.anchors[|s.anchors| - 1], s.marks[|s.marks| - 1];
      FrontChained(h, s.log, mark.head + 1);
      IncrementalSplitsFull(h, s.log, last, mark.head);
      SegmentIsRest(s.log, last, mark.head);
    }
  }

  /** The anchor a tick records on an honest log is good: its head is a row of the log, its walk
      was over the top of the log and leaves no gap. */
  lemma AnchorIsGood(h: string -> string, s: System, a: Anchor)
    requires Inv(h, s) && s.phase.Headed? && AnchorStep(h, s, Anchored(s, a), a)
    ensures |s.marks| == |s.anchors| && GoodAnchor(s.log, a, NewMark(s))
    ensures Lo(NewMark(s)) == Resume(s.anchors, s.marks, |s.marks|)
  {
    hide Chained, Segment, Seamless, AllGood, InKeyOrder, Resume, Baseline, ExpectedFirstPrev, FromGenesis, IndexOf;
    WalkIsClean(h, s);
    var k :| 0 <= k < |s.log| && s.phase.total <= k + 1 && s.log[k] == s.phase.head;
    SameRowSameIndex(s.log, k, NewMark(s).head);
    assert s.log[Lo(NewMark(s))..|s.log|] == s.log[Lo(NewMark(s))..];
  }

  lemma OneMoreAnchor(log: seq<AuditRow>, anchors: seq<Anchor>, marks: seq<Mark>, a: Anchor, m: Mark)
    requires AllGood(log, anchors, marks) && Seamless(anchors, marks)
    requires GoodAnchor(log, a, m) && Lo(m) == Resume(anchors, marks, |marks|)
    ensures AllGood(log, anchors + [a], marks + [m]) && Seamless(anchors + [a], marks + [m])
  {
    hide GoodAnchor;
    forall i | 0 <= i <= |marks| ensures Lo((marks + [m])[i]) == Resume(anchors + [a], marks + [m], i) {
      assert Resume(anchors + [a], marks + [m], i) == Resume(anchors, marks, i);
    }
  }

  lemma AnchorKeepsInv(h: string -> string, s: System, t: System, a: Anchor)
    requires Inv(h, s) && AnchorStep(h, s, t, a)
    ensures Inv(h, t)
  {
    hide InKeyOrder, Chained, Segment, GoodAnchor, Resume, AllGood, Seamless, Records, IndexOf;
    AnchorIsGood(h, s, a);
    OneMoreAnchor(s.log, s.anchors, s.marks, a, NewMark(s));
    GoodCount(s.log, a, NewMark(s));
  }

  lemma GoodCount(log: seq<AuditRow>, a: Anchor, m: Mark)
    requires GoodAnchor(log, a, m)
    ensures a.rowCount <= |log|
  {
  }

  lemma {:induction false} TraceInvariant(h: string -> string, states: seq<System>)
    requires HexDigest(h) && Trace(h, states)
    ensures Inv(h, states[|states| - 1])
  {
    hide VerifyRowHash, Before, Chained, Above;
    if |states| == 1 {
      InitInv(h, states[0]);
    } else {
      var n := |states| - 1;
      var front := states[..n];
      assert front[0] == states[0];
      forall i | 0 <= i < |front| - 1 ensures Step(h, front[i], front[i + 1]) {
        assert Step(h, states[i], states[i + 1]);
      }
      TraceInvariant(h, front);
      var s, t := states[n - 1], states[n];
      assert Step(h, states[n - 1], states[n - 1 + 1]);
      if CountStep(s, t) || HeadStep(s, t) || AbandonStep(s, t) {
        ReadKeepsInv(h, s, t);
      } else if exists e :: AppendStep(h, s, t, e) {
        var e :| AppendStep(h, s, t, e);
        AppendKeepsInv(h, s, t, e);
      } else {
        var a :| AnchorStep(h, s, t, a);
        AnchorKeepsInv(h, s, t, a);
      }
    }
  }

  lemma InitInv(h: string -> string, s: System)
    requires Init(s)
    ensures Inv(h, s)
  {}

  lemma {:induction false} FindsSome(h: string -> string, rows: seq<AuditRow>, prev: string)
    returns (detail: Option<Fault>)
    ensures Finds(h, rows, prev, detail)
  {
    hide VerifyRowHash;
    if rows == [] {
      detail := None;
    } else {
      var n := |rows| - 1;
      detail := FindsSome(h, rows[..n], prev);
      if detail.Some? {
        var i :| 0 <= i < n && FaultAt(h, rows[..n], prev, i, detail.value);
        assert rows[..n][..i] == rows[..i];
        assert FaultAt(h, rows, prev, i, detail.value);
      } else if LinkAt(h, rows, n, prev) {
        forall i | 0 <= i < |rows| ensures LinkAt(h, rows, i, prev) {
          if i < n { assert LinkAt(h, rows[..n], i, prev); }
        }
      } else {
        var f := if rows[n].prevHash != Expected(rows, n, prev) then LinkageBroken(rows[n].id)
            else HashMismatch(rows[n].id);
        assert FaultAt(h, rows, prev, n, f);
        detail := Some(f);
      }
    }
  }

  /** A tick that has read its head can always finish, whatever it reads; the one thing it may
      record then is what run_anchor records of the same reads. */
  lemma TickCompletes(h: string -> string, s: System) returns (a: Anchor)
    requires s.phase.Headed?
    ensures Step(h, s, Anchored(s, a))
    ensures forall b :: TickRecords(h, s, b) <==> b == a
  {
    hide VerifyRowHash, Chained, Segment, Baseline, ExpectedFirstPrev;
    var latest := Latest(s.anchors);
    var segment := Segment(s.log, latest);
    var fault := FindsSome(h, segment, ExpectedFirstPrev(latest));
    var dropped := if s.phase.total < Baseline(latest) then Some((Baseline(latest), s.phase.total)) else None;
    a := Anchor(Some(s.phase.head.id), s.phase.head.timestamp, s.phase.head.rowHash, s.phase.total,
                fault.None? && dropped.None?, Detail(fault, dropped));
    assert AnchorStep(h, s, Anchored(s, a), a);
    forall b | TickRecords(h, s, b) ensures b == a {
      FindsOne(h, segment, ExpectedFirstPrev(latest), fault, b.detail.fault);
    }
  }

  /** A tick with nothing between its reads anchors the newest row and counts every row. */
  lemma TickAlone(h: string -> string, s: System, a: Anchor)
    requires s.phase.Idle? && s.log != []
    ensures var c := s.(phase := Counted(|s.log|));
            var r := s.(phase := Headed(|s.log|, s.log[|s.log| - 1]));
            && CountStep(s, c) && HeadStep(c, r)
            && (AnchorStep(h, r, Anchored(r, a), a) ==> a.rowCount == |s.log| && AnchorsAt(a, s.log, |s.log| - 1))
            && Anchored(r, a).log == s.log && Anchored(r, a).anchors == s.anchors + [a] && Anchored(r, a).phase.Idle?
  {
    hide VerifyRowHash, Chained, Segment, Finds;
  }

  /** Where a tick starts: over from genesis, with nothing counted before, when there is no earlier
      anchor or its head has no id, no hash or the genesis hash; else right above the earlier head,
      whose hash is the first link expected and whose count is the least expected. */
  lemma TickStart(rows: seq<AuditRow>, latest: Option<Anchor>)
    requires InKeyOrder(rows)
    ensures var over := latest.None? || latest.value.headId.None? || latest.value.headHash in ["", GENESIS];
            && (over ==> Segment(rows, latest) == rows && ExpectedFirstPrev(latest) == GENESIS && Baseline(latest) == 0)
            && (!over ==>
                  && ExpectedFirstPrev(latest) == latest.value.headHash && Baseline(latest) == latest.value.rowCount
                  && InKeyOrder(Segment(rows, latest))
                  && forall r :: r in Segment(rows, latest) <==>
                       r in rows && (Earlier(latest.value.headTs, r.timestamp)
                                     || (latest.value.headTs == r.timestamp && Less(latest.value.headId.value, r.id))))
  {
    hide InKeyOrder, Earlier, Above;
    if !FromGenesis(latest) {
      AboveExact(rows, latest.value.headTs, latest.value.headId.value);
      forall r | r in rows { TickOrders(latest.value.headTs, r.timestamp); }
    }
  }

  lemma {:induction false} AboveExact(rows: seq<AuditRow>, ts: Timestamp, id: string)
    requires InKeyOrder(rows)
    ensures InKeyOrder(Above(rows, ts, id))
    ensures forall r :: r in Above(rows, ts, id) <==> r in rows && KeyAbove(r, ts, id)
  {
    hide Before, KeyAbove;
    if rows != [] {
      AboveExact(rows[1..], ts, id);
      assert rows == [rows[0]] + rows[1..];
      FirstIsLeast(rows);
      if KeyAbove(rows[0], ts, id) { ConsInOrder(rows[0], Above(rows[1..], ts, id)); }
    }
  }

  /** Some tick walked the row at index `r`. */
  ghost predicate Covered(marks: seq<Mark>, r: nat) {
    exists i :: 0 <= i < |marks| && Lo(marks[i]) <= r < marks[i].hi
  }

  lemma SeamlessFront(log: seq<AuditRow>, anchors: seq<Anchor>, marks: seq<Mark>)
    requires AllGood(log, anchors, marks) && marks != [] && Seamless(anchors, marks)
    ensures |anchors| == |marks|
    ensures var n := |marks| - 1;
            && AllGood(log, anchors[..n], marks[..n]) && Seamless(anchors[..n], marks[..n])
            && Lo(marks[n]) == Resume(anchors, marks, n) && marks[n].head < marks[n].hi
  {
    hide AnchorsAt, Walked;
    var n := |marks| - 1;
    assert GoodAnchor(log, anchors[n], marks[n]);
    forall i | 0 <= i < n ensures Lo(marks[..n][i]) == Resume(anchors[..n], marks[..n], i) {
      assert Resume(anchors[..n], marks[..n], i) == Resume(anchors, marks, i);
    }
  }

  lemma CoveredBefore(marks: seq<Mark>, n: nat, r: nat)
    requires n <= |marks| && Covered(marks[..n], r)
    ensures Covered(marks, r)
  {
    var i :| 0 <= i < n && Lo(marks[..n][i]) <= r < marks[..n][i].hi;
    assert Lo(marks[i]) <= r < marks[i].hi;
  }

  lemma {:induction false} SeamlessCovers(log: seq<AuditRow>, anchors: seq<Anchor>, marks: seq<Mark>, r: nat)
    requires AllGood(log, anchors, marks) && marks != [] && Seamless(anchors, marks) && r <= marks[|marks| - 1].head
    ensures Covered(marks, r)
    decreases |marks|
  {
    hide AllGood, Seamless;
    var n := |marks| - 1;
    SeamlessFront(log, anchors, marks);
    if r < Lo(marks[n]) {
      SeamlessCovers(log, anchors[..n], marks[..n], r);
      CoveredBefore(marks, n, r);
    } else {
      assert Lo(marks[n]) <= r < marks[n].hi;
    }
  }

  /** In every run of honest appends and ticks, whatever each of a tick's reads sees: no tick
      reports tampering, every anchor names a row of the log and counts at most the rows up to it,
      and together the walked segments cover every row from genesis to the newest anchored head. */
  lemma HonestRunsStayClean(h: string -> string, states: seq<System>)
    requires HexDigest(h) && Trace(h, states)
    ensures var s := states[|states| - 1];
            && Chained(h, s.log, GENESIS) && |s.marks| == |s.anchors|
            && (forall i :: 0 <= i < |s.anchors| ==>
                  s.anchors[i].ok && AnchorsAt(s.anchors[i], s.log, s.marks[i].head)
                  && s.anchors[i].rowCount <= s.marks[i].head + 1 && Walked(s.log, s.marks[i])
                  && Lo(s.marks[i]) == Resume(s.anchors, s.marks, i))
            && (s.anchors != [] ==>
                  forall r :: 0 <= r <= s.marks[|s.marks| - 1].head ==> Covered(s.marks, r))
  {
    hide VerifyRowHash, Before, Chained;
    TraceInvariant(h, states);
    var s := states[|states| - 1];
    forall i | 0 <= i < |s.anchors|
      ensures s.anchors[i].ok && AnchorsAt(s.anchors[i], s.log, s.marks[i].head)
              && s.anchors[i].rowCount <= s.marks[i].head + 1 && Walked(s.log, s.marks[i])
              && Lo(s.marks[i]) == Resume(s.anchors, s.marks, i)
    {
      assert GoodAnchor(s.log, s.anchors[i], s.marks[i]);
    }
    if s.anchors != [] {
      forall r | 0 <= r <= s.marks[|s.marks| - 1].head
        ensures Covered(s.marks, r)
      {
        SeamlessCovers(s.log, s.anchors, s.marks, r);
      }
    }
  }
}
