/** The hash chain of the audit log: appending (backend/audit/service.py) and walking
    (backend/audit_monitor/anchor.py). The log is the sequence of its rows in (timestamp, id)
    order, the order every query asks for. */
module AuditChain {
  import opened Insertion
  import opened Optional
  import opened StringOrder
  import opened Json
  import opened AuditRow
  import UserAgent

  // ---- what a clean walk means ----

  /** The hash the row at `i` must point at, in a walk starting from `prev`. */
  function Expected(rows: seq<AuditRow>, i: nat, prev: string): string
    requires i < |rows|
  {
    if i == 0 then prev else rows[i - 1].rowHash
  }

  predicate LinkAt(h: string -> string, rows: seq<AuditRow>, i: nat, prev: string)
    requires i < |rows|
  {
    rows[i].prevHash == Expected(rows, i, prev) && VerifyRowHash(h, rows[i])
  }

  /** Every row verifies and points at the row before it, the first one at `prev`. */
  predicate Chained(h: string -> string, rows: seq<AuditRow>, prev: string) {
    forall i :: 0 <= i < |rows| ==> LinkAt(h, rows, i, prev)
  }

  datatype Fault = LinkageBroken(id: string) | HashMismatch(id: string)

  /** The first faulty row is the one at `i`, and `f` names it and its fault. */
  predicate FaultAt(h: string -> string, rows: seq<AuditRow>, prev: string, i: nat, f: Fault)
    requires i < |rows|
  {
    && Chained(h, rows[..i], prev) && !LinkAt(h, rows, i, prev)
    && f == if rows[i].prevHash != Expected(rows, i, prev) then LinkageBroken(rows[i].id) else HashMismatch(rows[i].id)
  }

  /** What the walk is to report of a segment: nothing of a chained one, else the first fault. */
  ghost predicate Finds(h: string -> string, rows: seq<AuditRow>, prev: string, detail: Option<Fault>) {
    && (detail.None? <==> Chained(h, rows, prev))
    && (detail.Some? ==> exists i :: 0 <= i < |rows| && FaultAt(h, rows, prev, i, detail.value))
  }

  lemma NoFaultBelow(h: string -> string, rows: seq<AuditRow>, prev: string, i: nat, j: nat)
    requires i < j <= |rows| && Chained(h, rows[..j], prev)
    ensures LinkAt(h, rows, i, prev)
  {
    hide VerifyRowHash;
    assert LinkAt(h, rows[..j], i, prev);
  }

  /** There is one thing to report. */
  lemma FindsOne(h: string -> string, rows: seq<AuditRow>, prev: string, d: Option<Fault>, e: Option<Fault>)
    requires Finds(h, rows, prev, d) && Finds(h, rows, prev, e)
    ensures d == e
  {
    hide VerifyRowHash;
    if d.Some? && e.Some? {
      var i :| 0 <= i < |rows| && FaultAt(h, rows, prev, i, d.value);
      var j :| 0 <= j < |rows| && FaultAt(h, rows, prev, j, e.value);
      if i < j { NoFaultBelow(h, rows, prev, i, j); }
      if j < i { NoFaultBelow(h, rows, prev, j, i); }
    }
  }

  lemma ChainedSnoc(h: string -> string, rows: seq<AuditRow>, i: nat, prev: string)
    requires i < |rows| && Chained(h, rows[..i], prev)
    ensures Chained(h, rows[..i + 1], prev) <==> LinkAt(h, rows, i, prev)
  {
    hide VerifyRowHash;
    assert forall k :: 0 <= k < i ==> LinkAt(h, rows[..i], k, prev) && rows[..i][k] == rows[k];
    assert LinkAt(h, rows[..i + 1], i, prev) <==> LinkAt(h, rows, i, prev);
  }

  lemma FaultFound(h: string -> string, rows: seq<AuditRow>, prev: string, i: nat, f: Fault)
    requires i < |rows| && FaultAt(h, rows, prev, i, f)
    ensures Finds(h, rows, prev, Some(f)) && !Chained(h, rows, prev)
  {
  }

  /** _verify_walk: the walk stops at the first faulty row and names it. */
  method VerifyWalk(h: string -> string, rows: seq<AuditRow>, expectedFirstPrev: string)
    returns (ok: bool, detail: Option<Fault>)
    ensures ok <==> Chained(h, rows, expectedFirstPrev)
    ensures Finds(h, rows, expectedFirstPrev, detail)
  {
    hide VerifyRowHash, Chained;
    var prev := expectedFirstPrev;
    assert Chained(h, rows[..0], expectedFirstPrev) by { NothingChained(h, expectedFirstPrev); }
    for i := 0 to |rows|
      invariant Chained(h, rows[..i], expectedFirstPrev)
      invariant prev == if i == 0 then expectedFirstPrev else rows[i - 1].rowHash
    {
      var row := rows[i];
      ChainedSnoc(h, rows, i, expectedFirstPrev);
      if row.prevHash != prev {
        FaultFound(h, rows, expectedFirstPrev, i, LinkageBroken(row.id));
        return false, Some(LinkageBroken(row.id));
      }
      if !VerifyRowHash(h, row) {
        FaultFound(h, rows, expectedFirstPrev, i, HashMismatch(row.id));
        return false, Some(HashMismatch(row.id));
      }
      prev := row.rowHash;
    }
    assert rows[..|rows|] == rows;
    ok, detail := true, None;
  }

  lemma NothingChained(h: string -> string, prev: string)
    ensures Chained(h, [], prev)
  {
  }

  /** The hash a segment hands on to the next one. */
  function LastHash(rows: seq<AuditRow>, prev: string): string {
    if rows == [] then prev else rows[|rows| - 1].rowHash
  }

  /** A walk splits anywhere: the whole is clean exactly when the front is and the rest is clean
      from the front's last hash. */
  lemma WalkSplits(h: string -> string, a: seq<AuditRow>, b: seq<AuditRow>, prev: string)
    ensures Chained(h, a + b, prev) <==> Chained(h, a, prev) && Chained(h, b, LastHash(a, prev))
  {
    hide VerifyRowHash, HashInput;
    var w := a + b;
    assert forall i :: 0 <= i < |a| ==> (LinkAt(h, w, i, prev) <==> LinkAt(h, a, i, prev));
    forall j | 0 <= j < |b| ensures LinkAt(h, w, |a| + j, prev) <==> LinkAt(h, b, j, LastHash(a, prev)) {
      assert w[|a| + j] == b[j];
      assert Expected(w, |a| + j, prev) == Expected(b, j, LastHash(a, prev));
    }
    if Chained(h, a, prev) && Chained(h, b, LastHash(a, prev)) {
      forall i | 0 <= i < |w| ensures LinkAt(h, w, i, prev) {
        if i >= |a| { assert LinkAt(h, b, i - |a|, LastHash(a, prev)); }
      }
    }
    if Chained(h, w, prev) {
      forall j | 0 <= j < |b| ensures LinkAt(h, b, j, LastHash(a, prev)) { assert LinkAt(h, w, |a| + j, prev); }
    }
  }

  /** Any contiguous stretch of a clean log is clean from its own first link. */
  lemma SegmentChained(h: string -> string, rows: seq<AuditRow>, prev: string, lo: nat, hi: nat)
    requires Chained(h, rows, prev) && lo < hi <= |rows|
    ensures Chained(h, rows[lo..hi], rows[lo].prevHash)
    ensures rows[lo].prevHash == LastHash(rows[..lo], prev)
  {
    assert rows == rows[..hi] + rows[hi..];
    WalkSplits(h, rows[..hi], rows[hi..], prev);
    assert rows[..hi] == rows[..lo] + rows[lo..hi];
    WalkSplits(h, rows[..lo], rows[lo..hi], prev);
    assert LinkAt(h, rows, lo, prev);
  }

  // ---- what a clean walk from genesis fixes ----

  /** The texts hashed for the rows of a log. */
  ghost function Inputs(rows: seq<AuditRow>): set<string> { set r | r in rows :: HashInput(r) }

  lemma PrevLength(h: string -> string, rows: seq<AuditRow>, i: nat)
    requires HexDigest(h) && Chained(h, rows, GENESIS) && i < |rows|
    ensures |rows[i].prevHash| == 64 && |rows[i].rowHash| == 64
    ensures HashInput(rows[i]) in Inputs(rows) && rows[i].rowHash == h(HashInput(rows[i]))
  {
    hide VerifyRowHash, HashInput;
    assert LinkAt(h, rows, i, GENESIS);
    assert rows[i] in rows;
    VerifiedHash(h, rows[i]);
    if i > 0 {
      assert LinkAt(h, rows, i - 1, GENESIS);
      VerifiedHash(h, rows[i - 1]);
    }
  }

  /** No row hash occurs twice in a clean log, and none is the genesis value. */
  lemma {:induction false} RowHashesDistinct(h: string -> string, rows: seq<AuditRow>, i: nat, j: nat)
    requires HexDigest(h) && Chained(h, rows, GENESIS) && CollisionFree(h, Inputs(rows))
    requires i < j < |rows|
    ensures rows[i].rowHash != rows[j].rowHash && rows[i].rowHash != GENESIS
  {
    hide VerifyRowHash, HashInput, CanonicalPayload, SameHashedFields, Inputs;
    PrevLength(h, rows, i);
    PrevLength(h, rows, j);
    PrevLength(h, rows, j - 1);
    assert LinkAt(h, rows, i, GENESIS) && LinkAt(h, rows, j, GENESIS);
    if rows[i].rowHash == rows[j].rowHash {
      RowHashBinds(h, rows[i], rows[j]);
      if i > 0 { RowHashesDistinct(h, rows, i - 1, j - 1); }
      assert false;
    }
  }

  ghost predicate SameRow(a: AuditRow, b: AuditRow) {
    a.prevHash == b.prevHash && a.rowHash == b.rowHash
    && CanonicalPayload(a) == CanonicalPayload(b) && SameHashedFields(a, b)
  }

  lemma DropLast(h: string -> string, a: seq<AuditRow>)
    requires HexDigest(h) && Chained(h, a, GENESIS) && a != []
    ensures var n := |a| - 1;
            Chained(h, a[..n], GENESIS) && LastHash(a[..n], GENESIS) == a[n].prevHash && |a[n].prevHash| == 64
            && VerifyRowHash(h, a[n]) && Inputs(a[..n]) <= Inputs(a) && HashInput(a[n]) in Inputs(a)
            && a[n].rowHash == h(HashInput(a[n]))
  {
    hide VerifyRowHash, HashInput;
    var n := |a| - 1;
    assert a == a[..n] + [a[n]];
    WalkSplits(h, a[..n], [a[n]], GENESIS);
    PrevLength(h, a, n);
    assert LinkAt(h, a, n, GENESIS);
  }

  ghost predicate SameRows(a: seq<AuditRow>, b: seq<AuditRow>) {
    |a| == |b| && forall i :: 0 <= i < |a| ==> SameRow(a[i], b[i])
  }

  lemma SameRowsSnoc(a: seq<AuditRow>, b: seq<AuditRow>)
    requires a != [] && b != [] && SameRows(a[..|a| - 1], b[..|b| - 1]) && SameRow(a[|a| - 1], b[|b| - 1])
    ensures SameRows(a, b)
  {
    hide SameRow;
    forall i | 0 <= i < |a| ensures SameRow(a[i], b[i]) {
      if i < |a| - 1 { assert a[i] == a[..|a| - 1][i] && b[i] == b[..|b| - 1][i]; }
    }
  }

  lemma CollisionFreeWithin(h: string -> string, s: set<string>, t: set<string>)
    requires CollisionFree(h, t) && s <= t
    ensures CollisionFree(h, s)
  {
  }

  /** Two clean logs with one head hash have one last row, and one head hash below it. */
  lemma LastRowsAgree(h: string -> string, a: seq<AuditRow>, b: seq<AuditRow>)
    requires HexDigest(h) && Chained(h, a, GENESIS) && Chained(h, b, GENESIS) && a != [] && b != []
    requires CollisionFree(h, Inputs(a) + Inputs(b)) && LastHash(a, GENESIS) == LastHash(b, GENESIS)
    ensures var m, n := |a| - 1, |b| - 1;
            && SameRow(a[m], b[n]) && LastHash(a[..m], GENESIS) == LastHash(b[..n], GENESIS)
            && Chained(h, a[..m], GENESIS) && Chained(h, b[..n], GENESIS)
            && CollisionFree(h, Inputs(a[..m]) + Inputs(b[..n]))
  {
    hide VerifyRowHash, HashInput, CanonicalPayload, SameHashedFields, Chained, Inputs, CollisionFree;
    var m, n := |a| - 1, |b| - 1;
    DropLast(h, a);
    DropLast(h, b);
    CollisionFreeWithin(h, {HashInput(a[m]), HashInput(b[n])}, Inputs(a) + Inputs(b));
    CollisionFreeWithin(h, Inputs(a[..m]) + Inputs(b[..n]), Inputs(a) + Inputs(b));
    RowHashBinds(h, a[m], b[n]);
  }

  lemma HeadNotGenesis(h: string -> string, a: seq<AuditRow>, inputs: set<string>)
    requires HexDigest(h) && Chained(h, a, GENESIS) && a != [] && CollisionFree(h, inputs) && Inputs(a) <= inputs
    ensures a[|a| - 1].rowHash != GENESIS
  {
    hide VerifyRowHash, HashInput, Chained, Inputs;
    DropLast(h, a);
  }

  /** The head hash certifies the whole history: two clean logs with one head hash have one
      length and agree row by row on both hashes, the payload and every hashed field. */
  lemma {:induction false} HeadFixesHistory(h: string -> string, a: seq<AuditRow>, b: seq<AuditRow>)
    requires HexDigest(h) && Chained(h, a, GENESIS) && Chained(h, b, GENESIS)
    requires CollisionFree(h, Inputs(a) + Inputs(b))
    requires LastHash(a, GENESIS) == LastHash(b, GENESIS)
    ensures SameRows(a, b)
    decreases |a|
  {
    hide *;
    if a != [] && b != [] {
      LastRowsAgree(h, a, b);
      HeadFixesHistory(h, a[..|a| - 1], b[..|b| - 1]);
      SameRowsSnoc(a, b);
    } else {
      if a != [] { HeadNotGenesis(h, a, Inputs(a) + Inputs(b)); }
      if b != [] { HeadNotGenesis(h, b, Inputs(a) + Inputs(b)); }
      BothEmpty(h, a, b);
    }
  }

  lemma BothEmpty(h: string -> string, a: seq<AuditRow>, b: seq<AuditRow>)
    requires (a == [] || b == []) && LastHash(a, GENESIS) == LastHash(b, GENESIS)
    requires a != [] ==> a[|a| - 1].rowHash != GENESIS
    requires b != [] ==> b[|b| - 1].rowHash != GENESIS
    ensures SameRows(a, b)
  {
  }

  // ---- appending ----

  /** What a caller of write_audit hands over, the request context merged in, and the clock
      and the random id of the call. */
  datatype Event = Event(
    action: string, userId: Option<string>, username: Option<string>, roleAtTime: Option<string>,
    sessionId: Option<string>, outcome: Option<string>, resourceType: Option<string>,
    resourceId: Option<string>, resourceLabel: Option<string>, details: Json, ipAddress: Option<string>,
    userAgent: Option<string>, requestMethod: Option<string>, requestPath: Option<string>,
    requestId: Option<string>, now: Timestamp, id: string)

  function Unhashed(e: Event, prev: string): AuditRow {
    AuditRow(e.id, e.now, e.userId, e.username, e.roleAtTime, e.sessionId, e.action, e.outcome,
             e.resourceType, e.resourceId, e.resourceLabel, OrEmpty(e.details), e.ipAddress,
             UserAgent.Sanitize(e.userAgent), e.requestMethod, e.requestPath, e.requestId, "v3", "", prev)
  }

  /** The row written for an event that chains to `prev`. */
  function NewRow(h: string -> string, e: Event, prev: string): AuditRow {
    var row := Unhashed(e, prev);
    row.(rowHash := RowHash(h, prev, Obj(Dict(EntriesV3(row)))))
  }

  lemma NewRowVerifies(h: string -> string, e: Event, prev: string)
    ensures var row := NewRow(h, e, prev);
            VerifyRowHash(h, row) && row.prevHash == prev && row.id == e.id && row.timestamp == e.now
    ensures HexDigest(h) ==> |NewRow(h, e, prev).rowHash| == 64
  {
    var row := Unhashed(e, prev);
    assert EntriesV3(NewRow(h, e, prev)) == EntriesV3(row);
  }

  /** The row carries the event, field by field, and the user agent only as it is sanitised. */
  predicate Carries(row: AuditRow, e: Event) {
    && row.id == e.id && row.timestamp == e.now && row.action == e.action && row.outcome == e.outcome
    && row.userId == e.userId && row.username == e.username && row.roleAtTime == e.roleAtTime
    && row.sessionId == e.sessionId && row.resourceType == e.resourceType && row.resourceId == e.resourceId
    && row.resourceLabel == e.resourceLabel && row.ipAddress == e.ipAddress
    && row.requestMethod == e.requestMethod && row.requestPath == e.requestPath && row.requestId == e.requestId
    && row.details == (if Truthy(e.details) then e.details else Obj(map[]))
    && row.userAgent == UserAgent.Sanitize(e.userAgent)
  }

  /** The row written carries its event, and its hash is taken of the previous hash and a payload
      that holds each of the seventeen members from the field it belongs to. */
  lemma NewRowCarries(h: string -> string, e: Event, prev: string)
    ensures var row := NewRow(h, e, prev);
            && Carries(row, e) && Version(row) == "v3"
            && CanonicalPayload(row).Some? && CanonicalPayload(row).value.Obj?
            && Holds(CanonicalPayload(row).value.members, row)
            && row.rowHash == h(prev + Print(CanonicalPayload(row).value, Escaped))
  {
    hide CanonicalPayload, Holds, Carries, NewRow;
    NewRowFields(h, e, prev);
    NewRowHash(h, e, prev);
    KnownPayload(NewRow(h, e, prev));
  }

  lemma NewRowFields(h: string -> string, e: Event, prev: string)
    ensures Carries(NewRow(h, e, prev), e) && Version(NewRow(h, e, prev)) == "v3"
  {
    hide RowHash, EntriesV3, Dict, UserAgent.Sanitize;
  }

  lemma NewRowHash(h: string -> string, e: Event, prev: string)
    ensures var row := NewRow(h, e, prev);
            CanonicalPayload(row).Some? && row.rowHash == h(prev + Print(CanonicalPayload(row).value, Escaped))
  {
    hide Print, Dict, UserAgent.Sanitize;
    assert EntriesV3(NewRow(h, e, prev)) == EntriesV3(Unhashed(e, prev));
  }

  /** The row that sorts last, or genesis: `scalar_one_or_none() or GENESIS_HASH`. */
  function HeadHash(rows: seq<AuditRow>): string {
    if rows == [] || rows[|rows| - 1].rowHash == "" then GENESIS else rows[|rows| - 1].rowHash
  }

  ghost predicate InKeyOrder(rows: seq<AuditRow>) {
    forall i, j :: 0 <= i < j < |rows| ==> Before(rows[i], rows[j])
  }

  /** The new row, chained to the head, at its place in the (timestamp, id) order. */
  function Append(h: string -> string, rows: seq<AuditRow>, e: Event): seq<AuditRow> {
    Place(rows, NewRow(h, e, HeadHash(rows)), Before)
  }

  /** The table audit_logs. The advisory lock is held from the read of the head to the commit,
      so one call is one step. */
  class AuditLog {
    var rows: seq<AuditRow>

    constructor ()
      ensures rows == []
    {
      rows := [];
    }

    method WriteAudit(h: string -> string, e: Event) returns (row: AuditRow)
      modifies this
      ensures row == NewRow(h, e, HeadHash(old(rows))) && Carries(row, e) && VerifyRowHash(h, row)
      ensures rows == Append(h, old(rows), e)
      ensures old(rows) == [] ==> |row.prevHash| == 64 && forall c :: c in row.prevHash ==> c == '0'
    {
      var prev := GENESIS;
      if rows != [] && rows[|rows| - 1].rowHash != "" { prev := rows[|rows| - 1].rowHash; }
      row := Unhashed(e, prev);
      var payload := Obj(Dict(EntriesV3(row)));
      row := row.(rowHash := h(prev + Print(payload, Escaped)));
      rows := Place(rows, row, Before);
      NewRowFields(h, e, prev);
      NewRowVerifies(h, e, prev);
    }
  }

  // ---- keys ----

  lemma BeforeTransitive(a: AuditRow, b: AuditRow, c: AuditRow)
    requires Before(a, b) && Before(b, c)
    ensures Before(a, c)
  {
    if a.timestamp.Tick() == b.timestamp.Tick() == c.timestamp.Tick() { LessTransitive(a.id, b.id, c.id); }
  }

  lemma BeforeAsymmetric(a: AuditRow, b: AuditRow)
    requires Before(a, b)
    ensures !Before(b, a) && a != b
  {
    if a.timestamp.Tick() == b.timestamp.Tick() { LessAsymmetric(a.id, b.id); }
  }

  /** The primary key: two rows with different ids are never at one place. */
  lemma BeforeTotal(a: AuditRow, b: AuditRow)
    requires a.id != b.id
    ensures Before(a, b) || Before(b, a)
  {
    LessTotal(a.id, b.id);
  }

  ghost predicate FreshId(rows: seq<AuditRow>, id: string) { forall r :: r in rows ==> r.id != id }

  lemma FirstIsLeast(rows: seq<AuditRow>)
    requires InKeyOrder(rows) && rows != []
    ensures forall r :: r in rows[1..] ==> Before(rows[0], r)
  {
    hide Before;
    forall r | r in rows[1..] ensures Before(rows[0], r) {
      var k :| 0 <= k < |rows| - 1 && rows[1..][k] == r;
      assert rows[k + 1] == r;
    }
  }

  lemma ConsInOrder(row: AuditRow, rows: seq<AuditRow>)
    requires InKeyOrder(rows) && forall r :: r in rows ==> Before(row, r)
    ensures InKeyOrder([row] + rows)
  {
    hide Before;
    var w := [row] + rows;
    forall i, j | 0 <= i < j < |w| ensures Before(w[i], w[j]) {
      assert w[j] == rows[j - 1];
      if i > 0 { assert w[i] == rows[i - 1]; }
    }
  }

  /** A new row keeps the log in key order. */
  lemma PlaceKeepsOrder(rows: seq<AuditRow>, row: AuditRow)
    requires InKeyOrder(rows) && FreshId(rows, row.id)
    ensures InKeyOrder(Place(rows, row, Before))
  {
    hide Before;
    forall r | r in rows ensures Before(r, row) || Before(row, r) { BeforeTotal(r, row); }
    forall r, q | Before(r, q) && Before(q, row) ensures Before(r, row) { BeforeTransitive(r, q, row); }
    PlaceOrders(rows, row, Before, Before);
  }

  /** A row whose key is above the head's goes to the end. */
  lemma PlaceAtEnd(rows: seq<AuditRow>, row: AuditRow)
    requires rows == [] || Before(rows[|rows| - 1], row)
    ensures Place(rows, row, Before) == rows + [row]
  {
    hide Before;
  }

  // ---- whole runs of appends ----

  /** The log after a run of write_audit calls on the empty table. */
  function Run(h: string -> string, events: seq<Event>): seq<AuditRow> {
    if events == [] then [] else Append(h, Run(h, events[..|events| - 1]), events[|events| - 1])
  }

  ghost predicate DistinctIds(events: seq<Event>) {
    forall i, j :: 0 <= i < j < |events| ==> events[i].id != events[j].id
  }

  /** The key of the new row is above the key of the head it chains to. */
  ghost predicate AboveHead(h: string -> string, rows: seq<AuditRow>, e: Event) {
    rows == [] || Before(rows[|rows| - 1], NewRow(h, e, HeadHash(rows)))
  }

  ghost predicate AllAboveHead(h: string -> string, events: seq<Event>) {
    forall i :: 0 <= i < |events| ==> AboveHead(h, Run(h, events[..i]), events[i])
  }

  lemma {:induction false} RunInvariant(h: string -> string, events: seq<Event>)
    requires HexDigest(h) && DistinctIds(events)
    ensures InKeyOrder(Run(h, events)) && |Run(h, events)| == |events|
    ensures forall r :: r in Run(h, events) ==> r.id in Ids(events) && VerifyRowHash(h, r) && |r.rowHash| == 64
  {
    hide VerifyRowHash, NewRow, Before, Place;
    if events != [] {
      var n := |events| - 1;
      var before := Run(h, events[..n]);
      RunInvariant(h, events[..n]);
      NewRowVerifies(h, events[n], HeadHash(before));
      var row := NewRow(h, events[n], HeadHash(before));
      FreshLastId(events);
      PlaceKeepsOrder(before, row);
      PlaceKeeps(before, row, Before);
    }
  }

  ghost function Ids(events: seq<Event>): set<string> { set e | e in events :: e.id }

  lemma FreshLastId(events: seq<Event>)
    requires DistinctIds(events) && events != []
    ensures Ids(events) == Ids(events[..|events| - 1]) + {events[|events| - 1].id}
    ensures events[|events| - 1].id !in Ids(events[..|events| - 1])
  {
    var n := |events| - 1;
    assert events == events[..n] + [events[n]];
    forall e | e in events[..n] ensures e.id != events[n].id {
      var i :| 0 <= i < n && events[..n][i] == e;
    }
  }

  ghost predicate UserAgentClean(row: AuditRow) { row.userAgent.Some? ==> UserAgent.Clean(row.userAgent.value) }

  ghost predicate CameClean(e: Event) { e.userAgent.Some? && UserAgent.Clean(e.userAgent.value) }

  ghost predicate HasRow(log: seq<AuditRow>, e: Event) { exists r :: r in log && Carries(r, e) }

  ghost predicate HasEvent(r: AuditRow, events: seq<Event>) { exists e :: e in events && Carries(r, e) }

  /** One row for every event and no other, each carrying its event, with a clean user agent. */
  ghost predicate Recorded(log: seq<AuditRow>, events: seq<Event>) {
    && |log| == |events|
    && (forall e :: e in events ==> HasRow(log, e))
    && (forall r :: r in log ==> UserAgentClean(r) && HasEvent(r, events))
  }

  lemma RowStays(before: seq<AuditRow>, log: seq<AuditRow>, e: Event)
    requires HasRow(before, e) && forall r :: r in before ==> r in log
    ensures HasRow(log, e)
  {
    hide Carries;
    var r :| r in before && Carries(r, e);
    assert r in log;
  }

  lemma EventStays(r: AuditRow, events: seq<Event>, n: nat)
    requires n <= |events| && HasEvent(r, events[..n])
    ensures HasEvent(r, events)
  {
    hide Carries;
    var e :| e in events[..n] && Carries(r, e);
    assert e in events;
  }

  lemma NewPair(log: seq<AuditRow>, row: AuditRow, events: seq<Event>, e: Event)
    requires row in log && e in events && Carries(row, e)
    ensures HasRow(log, e) && HasEvent(row, events)
  {
    hide Carries;
  }

  lemma RecordedMore(before: seq<AuditRow>, log: seq<AuditRow>, row: AuditRow, events: seq<Event>)
    requires events != [] && Recorded(before, events[..|events| - 1]) && |log| == |events|
    requires Carries(row, events[|events| - 1]) && UserAgentClean(row)
    requires forall r :: r in log <==> r in before || r == row
    ensures Recorded(log, events)
  {
    hide Carries, UserAgentClean, HasRow, HasEvent;
    var n := |events| - 1;
    NewPair(log, row, events, events[n]);
    assert events == events[..n] + [events[n]];
    forall e | e in events ensures HasRow(log, e) {
      if e in events[..n] { RowStays(before, log, e); }
    }
    forall r | r in log ensures UserAgentClean(r) && HasEvent(r, events) {
      if r in before { EventStays(r, events, n); }
    }
  }

  /** Over any run the log holds one row for every event and no other, each carrying its event; a
      user agent is stored only clean, and one that was clean is stored as it came. */
  lemma RunRecords(h: string -> string, events: seq<Event>)
    requires HexDigest(h) && DistinctIds(events)
    ensures Recorded(Run(h, events), events)
    ensures forall r, e :: r in Run(h, events) && Carries(r, e) && CameClean(e) ==> r.userAgent == e.userAgent
  {
    forall r, e | r in Run(h, events) && Carries(r, e) && CameClean(e) ensures r.userAgent == e.userAgent {
      CarriedClean(r, e);
    }
    RunRecorded(h, events);
  }

  lemma {:induction false} RunRecorded(h: string -> string, events: seq<Event>)
    requires HexDigest(h) && DistinctIds(events)
    ensures Recorded(Run(h, events), events)
  {
    hide NewRow, Before, Place, Carries, UserAgentClean, HexDigest, VerifyRowHash, DistinctIds, Holds;
    RunInvariant(h, events);
    if events == [] {
      NothingRecorded();
    } else {
      hide Recorded;
      var n := |events| - 1;
      var before := Run(h, events[..n]);
      FrontDistinct(events);
      RunRecorded(h, events[..n]);
      RunStep(h, events);
      NewRowCarries(h, events[n], HeadHash(before));
      CarriedClean(NewRow(h, events[n], HeadHash(before)), events[n]);
      RecordedMore(before, Run(h, events), NewRow(h, events[n], HeadHash(before)), events);
    }
  }

  lemma NothingRecorded()
    ensures Recorded([], [])
  {}

  lemma FrontDistinct(events: seq<Event>)
    requires DistinctIds(events) && events != []
    ensures DistinctIds(events[..|events| - 1])
  {}

  lemma CarriedClean(row: AuditRow, e: Event)
    requires Carries(row, e)
    ensures UserAgentClean(row)
    ensures CameClean(e) ==> row.userAgent == e.userAgent
  {
    UserAgent.SanitizedClean(e.userAgent);
    if CameClean(e) { UserAgent.CleanUnchanged(e.userAgent.value); }
  }

  /** One more append to a run: what the new row is and where it may land. */
  lemma RunStep(h: string -> string, events: seq<Event>)
    requires HexDigest(h) && DistinctIds(events) && events != []
    ensures var before, e := Run(h, events[..|events| - 1]), events[|events| - 1];
            var row := NewRow(h, e, HeadHash(before));
            Run(h, events) == Place(before, row, Before) && FreshId(before, row.id) && row.prevHash == HeadHash(before)
            && HeadHash(before) == LastHash(before, GENESIS) && VerifyRowHash(h, row)
            && (forall r :: r in Run(h, events) <==> r in before || r == row)
  {
    hide VerifyRowHash, NewRow, Before, Place, InKeyOrder, Ids, HexDigest;
    var n := |events| - 1;
    var before := Run(h, events[..n]);
    RunInvariant(h, events[..n]);
    FreshLastId(events);
    NewRowVerifies(h, events[n], HeadHash(before));
    PlaceKeeps(before, NewRow(h, events[n], HeadHash(before)), Before);
    if before != [] { assert before[n - 1] in before; }
  }

  lemma {:induction false} InOrderAppendsChain(h: string -> string, events: seq<Event>)
    requires HexDigest(h) && DistinctIds(events) && AllAboveHead(h, events)
    ensures Chained(h, Run(h, events), GENESIS)
  {
    hide VerifyRowHash, NewRow, Before, Place;
    if events != [] {
      var n := |events| - 1;
      var front := events[..n];
      forall i | 0 <= i < n ensures AboveHead(h, Run(h, front[..i]), front[i]) {
        assert front[..i] == events[..i];
        assert AboveHead(h, Run(h, events[..i]), events[i]);
      }
      InOrderAppendsChain(h, front);
      var before := Run(h, front);
      var row := NewRow(h, events[n], HeadHash(before));
      RunInvariant(h, front);
      RunStep(h, events);
      assert AboveHead(h, Run(h, events[..n]), events[n]);
      PlaceAtEnd(before, row);
      assert LinkAt(h, [row], 0, LastHash(before, GENESIS));
      WalkSplits(h, before, [row], GENESIS);
    }
  }

  /** Rows stay: everything an earlier stage of the run held is in the later log. */
  lemma {:induction false} RunKeeps(h: string -> string, events: seq<Event>, k: nat)
    requires HexDigest(h) && DistinctIds(events) && k <= |events|
    ensures forall r :: r in Run(h, events[..k]) ==> r in Run(h, events)
  {
    hide VerifyRowHash, NewRow, Before, Place, Run;
    if k == |events| {
      assert events[..k] == events;
    } else {
      var front := events[..|events| - 1];
      assert front[..k] == events[..k];
      RunKeeps(h, front, k);
      RunStep(h, events);
    }
  }

  lemma OutOfPlace(log: seq<AuditRow>, row: AuditRow, head: AuditRow) returns (i: nat, j: nat)
    requires InKeyOrder(log) && row in log && head in log && !Before(head, row)
    ensures i <= j < |log| && log[i] == row && log[j] == head
  {
    hide Before;
    i :| 0 <= i < |log| && log[i] == row;
    j :| 0 <= j < |log| && log[j] == head;
  }

  /** Where the later log holds a row that landed below its head, and that head. */
  lemma MisplacedRow(h: string -> string, events: seq<Event>, k: nat) returns (i: nat, j: nat)
    requires HexDigest(h) && DistinctIds(events) && k < |events|
    requires !AboveHead(h, Run(h, events[..k]), events[k])
    ensures i < |Run(h, events)| && j < |Run(h, events)| && i <= j
    ensures Run(h, events)[i].prevHash == Run(h, events)[j].rowHash
  {
    hide VerifyRowHash, NewRow, Before, Place, Run, InKeyOrder, HexDigest;
    var before, log := Run(h, events[..k]), Run(h, events);
    var head, row := before[|before| - 1], NewRow(h, events[k], HeadHash(before));
    RunInvariant(h, events);
    assert events[..k + 1][..k] == events[..k];
    RunStep(h, events[..k + 1]);
    RunKeeps(h, events, k);
    RunKeeps(h, events, k + 1);
    assert head in before;
    i, j := OutOfPlace(log, row, head);
  }

  /** A row that landed below the head it chains to leaves the log broken, whatever follows. */
  lemma BelowHeadBreaks(h: string -> string, events: seq<Event>, k: nat)
    requires HexDigest(h) && DistinctIds(events) && k < |events|
    requires !AboveHead(h, Run(h, events[..k]), events[k])
    requires CollisionFree(h, Inputs(Run(h, events)))
    ensures !Chained(h, Run(h, events), GENESIS)
  {
    var i, j := MisplacedRow(h, events, k);
    NoLinkUpwards(h, Run(h, events), i, j);
  }

  /** A log with a row that points at itself or at a row above it does not walk clean. */
  lemma NoLinkUpwards(h: string -> string, log: seq<AuditRow>, i: nat, j: nat)
    requires HexDigest(h) && CollisionFree(h, Inputs(log))
    requires i <= j < |log| && log[i].prevHash == log[j].rowHash
    ensures !Chained(h, log, GENESIS)
  {
    hide VerifyRowHash, HashInput;
    if Chained(h, log, GENESIS) {
      assert LinkAt(h, log, i, GENESIS);
      PrevLength(h, log, j);
      if i > 0 { RowHashesDistinct(h, log, i - 1, j); }
      assert false;
    }
  }

  /** For every run of appends the whole log walks clean exactly when each row's key was above
      the key of the head it chained to. */
  lemma WalkCleanIffKeysRise(h: string -> string, events: seq<Event>)
    requires HexDigest(h) && DistinctIds(events)
    requires CollisionFree(h, Inputs(Run(h, events)))
    ensures Chained(h, Run(h, events), GENESIS) <==> AllAboveHead(h, events)
  {
    hide VerifyRowHash, NewRow, Before, HashInput, Place;
    if AllAboveHead(h, events) {
      InOrderAppendsChain(h, events);
    } else {
      var k :| 0 <= k < |events| && !AboveHead(h, Run(h, events[..k]), events[k]);
      BelowHeadBreaks(h, events, k);
    }
  }
}
