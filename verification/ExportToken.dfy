/** One-time audit-export tokens: any number of requests for one token, each a transaction that may
    fail at any point (backend/audit_export/download.py). */
module ExportToken {
  import opened Optional

  datatype Status = Ready | Consumed | Purged

  /** The audit rows a request may leave. */
  datatype Row = Denied | BundleMissing | Success

  /** How far a request has come. From Claimed on it holds the row, except when it is Refusing. Gone is
      the answer 410, with the audit row that was committed with it, if any. */
  datatype Phase = Refusing | Passed | Claimed | Opened | Missing | Audited(row: Row) | Gone(left: Option<Row>) | Failed
                 | Served

  /** Committed status and audit rows, the row's holder, the bundle file, and every request so far. */
  datatype Token = Token(status: Status, expires: int, file: bool, audits: seq<Row>, holder: Option<nat>,
      requests: map<nat, Phase>)

  datatype Event =
    | Read(r: nat, now: int)
    | Claim(r: nat)
    | Open(r: nat, readable: bool)
    | WriteAudit(r: nat, ok: bool)
    | Commit(r: nat, ok: bool)
    | Drop(r: nat)
    | FileGone

  function Put(s: Token, r: nat, p: Phase): Token { s.(requests := s.requests[r := p]) }

  /** The transaction of r ends without effect. */
  function Rollback(s: Token, r: nat): Token {
    Put(s, r, Failed).(holder := if s.holder == Some(r) then None else s.holder)
  }

  predicate At(s: Token, r: nat, p: Phase) { r in s.requests && s.requests[r] == p }

  predicate Over(p: Phase) { p.Gone? || p.Failed? || p.Served? }

  /** One step of a request; a step it cannot take, or must wait for, changes nothing. */
  function Step(s: Token, e: Event): Token {
    match e
    case Read(r, now) =>
      if r in s.requests then s
      else Put(s, r, if s.status != Ready || now >= s.expires then Refusing else Passed)
    case Claim(r) =>
      if !At(s, r, Passed) || s.holder.Some? then s
      else if s.status == Ready then Put(s, r, Claimed).(holder := Some(r))
      else Put(s, r, Gone(None))
    case Open(r, readable) =>
      if !At(s, r, Claimed) then s
      else if !s.file then Put(s, r, Missing)
      else if readable then Put(s, r, Opened)
      else Rollback(s, r)
    case WriteAudit(r, ok) =>
      if At(s, r, Refusing) || At(s, r, Opened) || At(s, r, Missing)
      then
        if !ok then Rollback(s, r)
        else
          Put(s, r, Audited(if At(s, r, Opened) then Success else if At(s, r, Missing) then BundleMissing else Denied))
      else s
    case Commit(r, ok) =>
      if r in s.requests && s.requests[r].Audited?
      then
        if !ok then Rollback(s, r)
        else
          var row := s.requests[r].row;
          Put(s, r, if row == Success then Served else Gone(Some(row))).(
            status := if row == Success then Consumed else if row == BundleMissing then Purged else s.status,
            audits := s.audits + [row],
            holder := if row == Denied then s.holder else None)
      else s
    case Drop(r) =>
      if r in s.requests && !Over(s.requests[r]) then Rollback(s, r) else s
    case FileGone => s.(file := false)
  }

  function Run(s: Token, es: seq<Event>): Token {
    if es == [] then s else Step(Run(s, es[..|es| - 1]), es[|es| - 1])
  }

  // ---- what every run keeps ----

  predicate HoldsRow(p: Phase) {
    p == Claimed || p == Opened || p == Missing || p == Audited(Success) || p == Audited(BundleMissing)
  }

  /** The row is held by the one request that claimed it, while the token is still ready. */
  ghost predicate Locks(s: Token) {
    && (forall r :: r in s.requests ==> (HoldsRow(s.requests[r]) <==> s.holder == Some(r)))
    && (s.holder.Some? ==> s.holder.value in s.requests && s.status == Ready)
  }

  ghost predicate AnyServed(s: Token) { exists r :: At(s, r, Served) }

  /** Consumed means one request was served, and only one. */
  ghost predicate Winner(s: Token) {
    (AnyServed(s) <==> s.status == Consumed) && forall r, q :: At(s, r, Served) && At(s, q, Served) ==> r == q
  }

  predicate Counted(s: Token) { multiset(s.audits)[Success] == (if s.status == Consumed then 1 else 0) }

  ghost predicate Inv(s: Token) { Locks(s) && Winner(s) && Counted(s) }

  /** Nothing asked yet. */
  function Fresh(expires: int, file: bool): Token { Token(Ready, expires, file, [], None, map[]) }

  lemma PutKeepsWinner(s: Token, t: Token, r: nat, p: Phase)
    requires Winner(s) && t.requests == s.requests[r := p] && p != Served && !At(s, r, Served)
    requires t.status == Consumed <==> s.status == Consumed
    ensures Winner(t)
  {
    if AnyServed(s) {
      var q :| At(s, q, Served);
      assert At(t, q, Served);
    }
    assert forall q :: At(t, q, Served) <==> At(s, q, Served);
  }

  lemma ServeKeepsWinner(s: Token, t: Token, r: nat)
    requires Winner(s) && s.status == Ready && t.requests == s.requests[r := Served] && t.status == Consumed
    ensures Winner(t)
  {
    assert At(t, r, Served);
    forall q | At(t, q, Served) && q != r ensures false { assert At(s, q, Served); }
  }

  lemma StepWinner(s: Token, e: Event)
    requires Inv(s)
    ensures Winner(Step(s, e))
  {
    hide Winner, Counted;
    var t := Step(s, e);
    if e.FileGone? || t == s {
      assert t.requests == s.requests && t.status == s.status;
      SameWinner(s, t);
    } else if e.r in t.requests && t.requests[e.r] == Served {
      ServeKeepsWinner(s, t, e.r);
    } else {
      PutKeepsWinner(s, t, e.r, t.requests[e.r]);
    }
  }

  lemma SameWinner(s: Token, t: Token)
    requires Winner(s) && t.requests == s.requests && t.status == s.status
    ensures Winner(t)
  {
    assert forall r :: At(s, r, Served) <==> At(t, r, Served);
  }

  lemma StepLocks(s: Token, e: Event)
    requires Inv(s)
    ensures Locks(Step(s, e))
  {
    hide Winner, Counted;
  }

  lemma StepCounts(s: Token, e: Event)
    requires Inv(s)
    ensures Counted(Step(s, e))
    ensures s.status != Ready ==> Step(s, e).status == s.status
    ensures s.audits <= Step(s, e).audits
  {
    hide Winner;
    if e.Commit? && e.r in s.requests && s.requests[e.r].Audited? { RowSnoc(s.audits, s.requests[e.r].row, Success); }
  }

  /** Over every interleaving of any number of requests, with failures anywhere: at most one is
      served, and the committed status is consumed exactly when one is, with exactly one success
      row; consumed and purged are final, and audit rows are only added. */
  lemma {:induction false} EveryRun(s: Token, es: seq<Event>)
    requires Inv(s)
    ensures Inv(Run(s, es))
    ensures s.status != Ready ==> Run(s, es).status == s.status
    ensures s.audits <= Run(s, es).audits
  {
    if es != [] {
      hide Step, Locks, Winner, Counted;
      EveryRun(s, es[..|es| - 1]);
      StepLocks(Run(s, es[..|es| - 1]), es[|es| - 1]);
      StepWinner(Run(s, es[..|es| - 1]), es[|es| - 1]);
      StepCounts(Run(s, es[..|es| - 1]), es[|es| - 1]);
    }
  }

  /** From the start: one success row, one served request, status consumed — all three or none. */
  lemma TokenOnce(expires: int, file: bool, es: seq<Event>)
    ensures var t := Run(Fresh(expires, file), es);
            && multiset(t.audits)[Success] <= 1
            && (t.status == Consumed <==> multiset(t.audits)[Success] == 1)
            && (t.status == Consumed <==> exists r :: At(t, r, Served))
            && forall r, q :: At(t, r, Served) && At(t, q, Served) ==> r == q
  {
    hide Run, Step;
    assert multiset(Fresh(expires, file).audits)[Success] == 0;
    EveryRun(Fresh(expires, file), es);
  }

  /** The audit row a request has committed. */
  function RowOf(p: Phase): Option<Row> {
    match p
    case Served => Some(Success)
    case Gone(left) => left
    case _ => None
  }

  /** The requests that committed a row of the given kind. */
  function Wrote(s: Token, x: Row): set<nat> { set r | r in s.requests && Committed(s, r, x) }

  predicate Committed(s: Token, r: nat, x: Row) { r in s.requests && RowOf(s.requests[r]) == Some(x) }

  /** As many rows of each kind as requests that ended with one; and the bundle was found missing, once,
      exactly when the token is purged. */
  ghost predicate RowsAgree(s: Token) {
    && (forall x :: multiset(s.audits)[x] == |Wrote(s, x)|)
    && multiset(s.audits)[BundleMissing] == (if s.status == Purged then 1 else 0)
  }

  lemma CommittedOne(s: Token, t: Token, r: nat, p: Phase, q: nat, x: Row)
    requires t.requests == s.requests[r := p] && (r in s.requests ==> RowOf(s.requests[r]) == None)
    ensures Committed(t, q, x) ==> q in t.requests
    ensures Committed(s, q, x) ==> q in s.requests && q != r
    ensures Committed(t, q, x) <==> if q == r then RowOf(p) == Some(x) else Committed(s, q, x)
  {
    hide RowOf;
  }

  lemma WroteOne(s: Token, t: Token, r: nat, p: Phase, x: Row)
    requires t.requests == s.requests[r := p] && (r in s.requests ==> RowOf(s.requests[r]) == None)
    ensures |Wrote(t, x)| == |Wrote(s, x)| + if RowOf(p) == Some(x) then 1 else 0
  {
    hide RowOf, Committed;
    var more: set<nat> := if RowOf(p) == Some(x) then {r} else {};
    forall q ensures q in Wrote(t, x) <==> q in Wrote(s, x) + more { CommittedOne(s, t, r, p, q, x); }
    CommittedOne(s, t, r, p, r, x);
    assert Wrote(t, x) == Wrote(s, x) + more;
  }

  /** A step moves one request that had committed nothing, and adds the row it commits, if any. */
  lemma StepMoves(s: Token, e: Event)
    requires Inv(s) && !e.FileGone? && Step(s, e) != s
    ensures var t := Step(s, e);
            && e.r in t.requests && t.requests == s.requests[e.r := t.requests[e.r]]
            && (e.r in s.requests ==> RowOf(s.requests[e.r]) == None)
            && var row := RowOf(t.requests[e.r]);
               && t.audits == (if row.Some? then s.audits + [row.value] else s.audits)
               && (t.status == Purged <==> s.status == Purged || row == Some(BundleMissing))
               && (row == Some(BundleMissing) ==> s.status == Ready)
  {
    hide Winner, Counted;
  }

  lemma StepRows(s: Token, e: Event)
    requires Inv(s) && RowsAgree(s)
    ensures RowsAgree(Step(s, e))
  {
    hide Inv, Wrote, Step, RowOf;
    var t := Step(s, e);
    if e.FileGone? || t == s {
      FileGoneOnly(s, e);
      forall x ensures Wrote(t, x) == Wrote(s, x) { SameRequests(s, t, x); }
    } else {
      StepMoves(s, e);
      var row := RowOf(t.requests[e.r]);
      forall x ensures multiset(t.audits)[x] == multiset(s.audits)[x] + if row == Some(x) then 1 else 0 {
        if row.Some? { RowSnoc(s.audits, row.value, x); }
      }
      forall x ensures multiset(t.audits)[x] == |Wrote(t, x)| { WroteOne(s, t, e.r, t.requests[e.r], x); }
    }
  }

  lemma FileGoneOnly(s: Token, e: Event)
    requires e.FileGone? || Step(s, e) == s
    ensures var t := Step(s, e); t.requests == s.requests && t.audits == s.audits && t.status == s.status
  {}

  lemma SameRequests(s: Token, t: Token, x: Row)
    requires s.requests == t.requests
    ensures Wrote(s, x) == Wrote(t, x)
  {}

  lemma RowSnoc(rows: seq<Row>, y: Row, x: Row)
    ensures multiset(rows + [y])[x] == multiset(rows)[x] + if x == y then 1 else 0
  {
    assert multiset(rows + [y]) == multiset(rows) + multiset{y};
  }

  /** Over every interleaving: the audit log tells how every request ended, with one row for each that
      was served, refused or found the bundle missing, and none for any other. */
  lemma {:induction false} AuditsTell(expires: int, file: bool, es: seq<Event>)
    ensures Inv(Run(Fresh(expires, file), es)) && RowsAgree(Run(Fresh(expires, file), es))
  {
    hide Step, Inv, RowsAgree;
    if es == [] {
      FreshAgrees(expires, file);
    } else {
      AuditsTell(expires, file, es[..|es| - 1]);
      StepRows(Run(Fresh(expires, file), es[..|es| - 1]), es[|es| - 1]);
      EveryRun(Run(Fresh(expires, file), es[..|es| - 1]), [es[|es| - 1]]);
      assert [es[|es| - 1]][..0] == [];
    }
  }

  lemma FreshAgrees(expires: int, file: bool)
    ensures Inv(Fresh(expires, file)) && RowsAgree(Fresh(expires, file))
  {
    forall x ensures Wrote(Fresh(expires, file), x) == {} {}
  }

  /** How a request ended stays how it ended. */
  lemma {:induction false} EndIsFinal(s: Token, es: seq<Event>, r: nat)
    requires r in s.requests && Over(s.requests[r])
    ensures r in Run(s, es).requests && Run(s, es).requests[r] == s.requests[r]
  {
    if es != [] { EndIsFinal(s, es[..|es| - 1], r); }
  }

  /** A request that passed the first check but gets the row only when another one has used the token up
      is answered 410, and leaves no audit row. */
  lemma LoserGone(s: Token, es: seq<Event>, r: nat)
    requires At(s, r, Passed) && s.holder == None && s.status != Ready
    ensures var t := Step(s, Claim(r));
            && t.audits == s.audits && t.status == s.status && t.holder == None
            && At(Run(t, es), r, Gone(None))
  {
    hide Run;
    EndIsFinal(Step(s, Claim(r)), es, r);
  }

  /** A failed open, audit write or commit, or a lost connection, takes nothing from the token, and
      the request gives up the row. */
  lemma FailureTakesNothing(s: Token, e: Event)
    requires Inv(s)
    requires (e.Open? && !e.readable) || (e.WriteAudit? && !e.ok) || (e.Commit? && !e.ok) || e.Drop?
    ensures var t := Step(s, e);
            && t.status == s.status && t.audits == s.audits && t.file == s.file && t.expires == s.expires
            && (e.Open? && At(s, e.r, Claimed) && s.file ==> At(t, e.r, Failed) && t.holder == None)
            && (!e.Open? && t != s ==> At(t, e.r, Failed) && t.holder != Some(e.r))
  {
  }

  /** The whole of one undisturbed request. */
  function Request(s: Token, r: nat, now: int, readable: bool, auditOk: bool, commitOk: bool): Token {
    var last := Step(Step(Step(s, Read(r, now)), Claim(r)), Open(r, readable));
    Step(Step(last, WriteAudit(r, auditOk)), Commit(r, commitOk))
  }

  /** What it comes to: how it ends, and the audit row and status it leaves. */
  function Ending(s: Token, now: int, readable: bool, auditOk: bool, commitOk: bool): (Phase, Option<Row>) {
    var row := if s.status != Ready || now >= s.expires then Denied else if !s.file then BundleMissing else Success;
    if !auditOk || !commitOk || (row == Success && !readable) then (Failed, None)
    else (if row == Success then Served else Gone(Some(row)), Some(row))
  }

  function After(s: Token, r: nat, end: Phase, row: Option<Row>): Token {
    Put(s, r, end).(audits := if row.None? then s.audits else s.audits + [row.value],
                    status := if row == Some(Success) then Consumed
                        else if row == Some(BundleMissing) then Purged else s.status)
  }

  /** The last two steps, from a request that has a row to write. */
  lemma LastSteps(s: Token, r: nat, p: Phase, holder: Option<nat>, auditOk: bool, commitOk: bool)
    requires s.holder == None && r !in s.requests && p in {Refusing, Missing, Opened}
    requires holder == if p == Refusing then None else Some(r)
    ensures Step(Step(Put(s, r, p).(holder := holder), WriteAudit(r, auditOk)), Commit(r, commitOk))
         == if !auditOk || !commitOk then After(s, r, Failed, None)
            else if p == Opened then After(s, r, Served, Some(Success))
            else
              var row := if p == Missing then BundleMissing else Denied;
              After(s, r, Gone(Some(row)), Some(row))
  {
    var u := Put(s, r, p).(holder := holder);
    var v := Step(u, WriteAudit(r, auditOk));
    assert v.requests == s.requests[r := v.requests[r]];
    var t := Step(v, Commit(r, commitOk));
    assert t.requests == s.requests[r := t.requests[r]];
  }

  lemma FirstSteps(s: Token, r: nat, now: int, readable: bool)
    requires s.holder == None && r !in s.requests
    ensures Step(Step(Step(s, Read(r, now)), Claim(r)), Open(r, readable))
         == if s.status != Ready || now >= s.expires then Put(s, r, Refusing)
            else if !s.file then Put(s, r, Missing).(holder := Some(r))
            else if readable then Put(s, r, Opened).(holder := Some(r))
            else After(s, r, Failed, None)
  {
    var s1 := Step(s, Read(r, now));
    var s2 := Step(s1, Claim(r));
    assert s2.requests == s.requests[r := s2.requests[r]];
    var s3 := Step(s2, Open(r, readable));
    assert s3.requests == s.requests[r := s3.requests[r]];
  }

  lemma RequestEnds(s: Token, r: nat, now: int, readable: bool, auditOk: bool, commitOk: bool)
    requires s.holder == None && r !in s.requests
    ensures var (end, row) := Ending(s, now, readable, auditOk, commitOk);
            Request(s, r, now, readable, auditOk, commitOk) == After(s, r, end, row)
  {
    FirstSteps(s, r, now, readable);
    if s.status != Ready || now >= s.expires {
      LastSteps(s, r, Refusing, None, auditOk, commitOk);
    } else if !s.file {
      LastSteps(s, r, Missing, Some(r), auditOk, commitOk);
    } else if readable {
      LastSteps(s, r, Opened, Some(r), auditOk, commitOk);
    }
  }

  /** However many requests failed before: while the token is not used up, nobody holds it, its file
      is there and it has not expired, the next undisturbed request is served. */
  lemma StillUsable(s: Token, es: seq<Event>, r: nat, now: int)
    requires Inv(s)
    requires var t := Run(s, es);
             t.status == Ready && t.holder == None && t.file && now < t.expires && r !in t.requests
    ensures var u := Request(Run(s, es), r, now, true, true, true);
            Inv(Run(s, es)) && At(u, r, Served) && u.status == Consumed && u.audits == Run(s, es).audits + [Success]
  {
    hide Run, Inv, Request;
    EveryRun(s, es);
    RequestEnds(Run(s, es), r, now, true, true, true);
  }

  /** The row and the audit log as the route changes them when no other request comes between. */
  class TokenRow {
    var status: Status
    var expires: int
    var file: bool
    var audits: seq<Row>

    constructor (expires: int, file: bool)
      ensures Contents(map[]) == Fresh(expires, file)
    {
      status, this.expires, this.file, audits := Ready, expires, file, [];
    }

    function Contents(requests: map<nat, Phase>): Token
      reads this
    {
      Token(status, expires, file, audits, None, requests)
    }

    method Download(r: nat, now: int, readable: bool, auditOk: bool, commitOk: bool, ghost before: map<nat, Phase>)
      returns (end: Phase)
      requires r !in before
      modifies this`status, this`audits
      ensures Contents(before[r := end]) == Request(old(Contents(before)), r, now, readable, auditOk, commitOk)
    {
      hide Request;
      RequestEnds(Contents(before), r, now, readable, auditOk, commitOk);
      if status == Consumed || status == Purged || now >= expires {
        if !auditOk || !commitOk { return Failed; }
        audits := audits + [Denied];
        return Gone(Some(Denied));
      }
      if !file {
        if !auditOk || !commitOk { return Failed; }
        status := Purged;
        audits := audits + [BundleMissing];
        return Gone(Some(BundleMissing));
      }
      if !readable || !auditOk || !commitOk { return Failed; }
      status := Consumed;
      audits := audits + [Success];
      return Served;
    }
  }
}
