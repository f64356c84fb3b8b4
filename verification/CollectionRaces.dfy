/** One collection package under interleaved downloads, deletes, ingests and sweeps on one event
    loop: each request reads the row, and acts on that copy at a later turn of the loop
    (backend/collectors/routes.py, backend/collectors/retention.py). */
module CollectionRaces {
  import opened FiniteSets
  import opened Optional

  datatype Status = Generated | Consumed | Expired | Superseded | Deleted | Ingested

  /** The fields of the row these requests read and write; `path` is whether file_path is set. */
  datatype Row = Row(status: Status, path: bool)

  datatype Kind = Download | Delete | Ingest | Sweep

  /** A request: with its copy of the row; after its turn with what it will commit; ended. `body`
      says that it holds, or was answered with, the bytes of the package. */
  datatype Phase =
    | Loaded(kind: Kind, copy: Row)
    | Acted(write: Option<Status>, clear: bool, body: bool)
    | Done(body: bool)
    | Failed

  /** The committed row, its lock, the ZIP on disk, every request, the statuses committed so far,
      who read the bytes, and how the ZIP fared: unlinks that failed after a read, and removals by
      deletes and sweeps. */
  datatype Package = Package(row: Row, holder: Option<nat>, file: bool, requests: map<nat, Phase>, log: seq<Status>,
                             readers: set<nat>, failed: nat, reclaimed: nat)

  /** When the token ends, and whether the package was built with another version than the current one. */
  datatype Terms = Terms(expires: Option<int>, stale: bool)

  /** What the disk allows while a request acts: reading the ZIP, removing it. */
  datatype Disk = Disk(readable: bool, removable: bool)

  datatype Event = Load(r: nat, kind: Kind) | Act(r: nat, now: int, disk: Disk) | Commit(r: nat) | Fail(r: nat)

  /** effective_status. */
  function Effective(status: Status, terms: Terms, now: int): Status {
    if status != Generated then status
    else if terms.expires.Some? && now >= terms.expires.value then Expired
    else if terms.stale then Superseded
    else Generated
  }

  predicate Reclaimable(status: Status) { status in {Consumed, Expired, Superseded, Deleted} }

  function Put(p: Package, r: nat, phase: Phase): Package { p.(requests := p.requests[r := phase]) }

  function Release(p: Package, r: nat): Package { p.(holder := if p.holder == Some(r) then None else p.holder) }

  /** From the read of the row to the next await: no other request runs in between. What a request
      sets to the value its copy already has is not written. */
  function Turn(p: Package, r: nat, kind: Kind, copy: Row, terms: Terms, now: int, disk: Disk): Package {
    match kind
    case Download =>
      if Effective(copy.status, terms, now) != Generated then Put(p, r, Acted(None, false, false))
      else if !p.file || !disk.readable then Put(p, r, Acted(Some(Expired), true, false))
      else
        Put(p, r, Acted(Some(Consumed), true, true)).(
          file := !disk.removable, readers := p.readers + {r},
          failed := if disk.removable then p.failed else p.failed + 1)
    case Delete =>
      var gone := copy.path && p.file && disk.removable;
      Put(p, r, Acted(if copy.status == Deleted then None else Some(Deleted), copy.path, false)).(
        file := p.file && !gone, reclaimed := if gone then p.reclaimed + 1 else p.reclaimed)
    case Ingest => Put(p, r, Acted(Some(Ingested), false, false))
    case Sweep =>
      var status := Effective(copy.status, terms, now);
      var tries := Reclaimable(status) && copy.path;
      var gone := tries && p.file && disk.removable;
      var write := if status == copy.status then None else Some(status);
      Put(p, r, Acted(write, tries && (disk.removable || !p.file), false)).(
        file := p.file && !gone, reclaimed := if gone then p.reclaimed + 1 else p.reclaimed)
  }

  /** One event; one that is not possible, or must wait for the row's lock, changes nothing. */
  function Step(p: Package, terms: Terms, e: Event): Package {
    match e
    case Load(r, kind) =>
      if r in p.requests then p
      else if kind != Ingest then Put(p, r, Loaded(kind, p.row))
      else if p.holder.Some? then p
      else if p.row.status in {Ingested, Deleted} then Put(p, r, Done(false))
      else Put(p, r, Loaded(Ingest, p.row)).(holder := Some(r))
    case Act(r, now, disk) =>
      if r in p.requests && p.requests[r].Loaded?
      then Turn(p, r, p.requests[r].kind, p.requests[r].copy, terms, now, disk) else p
    case Commit(r) =>
      if r in p.requests && p.requests[r].Acted? && (p.holder.None? || p.holder == Some(r))
      then
        var a := p.requests[r];
        Release(Put(p, r, Done(a.body)), r).(
          row := Row(if a.write.Some? then a.write.value else p.row.status, p.row.path && !a.clear),
          log := if a.write.Some? then p.log + [a.write.value] else p.log)
      else p
    case Fail(r) =>
      if r in p.requests && (p.requests[r].Loaded? || p.requests[r].Acted?) then Release(Put(p, r, Failed), r) else p
  }

  function Run(p: Package, terms: Terms, es: seq<Event>): Package {
    if es == [] then p else Step(Run(p, terms, es[..|es| - 1]), terms, es[|es| - 1])
  }

  /** A package just generated. */
  function Fresh(): Package { Package(Row(Generated, true), None, true, map[], [], {}, 0, 0) }

  // ---- what every run keeps ----

  function One(b: bool): nat { if b then 1 else 0 }

  /** The one file there was: read, reclaimed, or still there. */
  predicate Conserved(p: Package) { |p.readers| + p.reclaimed + One(p.file) == 1 + p.failed }

  /** Whoever was or will be answered with the bytes has read them. */
  predicate Readers(p: Package) {
    && (forall r :: r in p.readers ==> r in p.requests && !p.requests[r].Loaded?)
    && (forall r :: r in p.requests && (p.requests[r].Acted? || p.requests[r].Done?) && p.requests[r].body ==>
        r in p.readers)
  }

  predicate Accounted(p: Package) { Conserved(p) && Readers(p) }

  /** Nobody is about to write `generated`, and whoever holds the bytes will commit `consumed`. */
  predicate Intends(p: Package) {
    forall r :: r in p.requests && p.requests[r].Acted? ==>
      p.requests[r].write != Some(Generated) && (p.requests[r].body ==> p.requests[r].write == Some(Consumed))
  }

  /** Nor has anybody: the committed status is the last one written. */
  predicate Logged(p: Package) {
    && (forall k :: 0 <= k < |p.log| ==> p.log[k] != Generated)
    && (p.row.status == if p.log == [] then Generated else p.log[|p.log| - 1])
  }

  predicate Answered(p: Package) { forall r :: r in p.requests && p.requests[r] == Done(true) ==> Consumed in p.log }

  predicate Writes(p: Package) { Intends(p) && Logged(p) && Answered(p) }

  lemma TurnConserves(p: Package, r: nat, kind: Kind, copy: Row, terms: Terms, now: int, disk: Disk)
    requires Conserved(p) && r !in p.readers
    ensures Conserved(Turn(p, r, kind, copy, terms, now, disk))
  {
    hide Effective, Reclaimable;
    assert |p.readers + {r}| == |p.readers| + 1;
  }

  lemma StepConserves(p: Package, terms: Terms, e: Event)
    requires Accounted(p)
    ensures Conserved(Step(p, terms, e))
  {
    hide Turn;
    match e
    case Act(r, now, disk) =>
      if r in p.requests && p.requests[r].Loaded? {
        TurnConserves(p, r, p.requests[r].kind, p.requests[r].copy, terms, now, disk);
      }
    case _ =>
  }

  lemma StepReaders(p: Package, terms: Terms, e: Event)
    requires Readers(p)
    ensures Readers(Step(p, terms, e))
  {
    hide Effective, Reclaimable;
  }

  lemma StepIntends(p: Package, terms: Terms, e: Event)
    requires Intends(p)
    ensures Intends(Step(p, terms, e))
  {
    hide Reclaimable;
  }

  lemma StepLogged(p: Package, terms: Terms, e: Event)
    requires Intends(p) && Logged(p)
    ensures Logged(Step(p, terms, e)) && p.log <= Step(p, terms, e).log
  {
    hide Reclaimable, Effective;
  }

  lemma StepAnswered(p: Package, terms: Terms, e: Event)
    requires Intends(p) && Answered(p)
    ensures Answered(Step(p, terms, e))
  {
    hide Reclaimable, Effective;
    if e.Commit? && e.r in p.requests && p.requests[e.r].Acted? && p.requests[e.r].body {
      assert (p.log + [Consumed])[|p.log|] == Consumed;
    }
  }

  /** Over every interleaving: the bytes read, the files reclaimed and the file still there add up
      to the one file there was, but for unlinks that failed; nothing writes `generated` again, and
      an answer with the bytes comes after a commit of `consumed`. */
  lemma {:induction false} EveryRun(p: Package, terms: Terms, es: seq<Event>)
    requires Accounted(p) && Writes(p)
    ensures Accounted(Run(p, terms, es)) && Writes(Run(p, terms, es)) && p.log <= Run(p, terms, es).log
  {
    hide Step, Conserved, Readers, Intends, Logged, Answered;
    if es != [] {
      EveryRun(p, terms, es[..|es| - 1]);
      StepConserves(Run(p, terms, es[..|es| - 1]), terms, es[|es| - 1]);
      StepReaders(Run(p, terms, es[..|es| - 1]), terms, es[|es| - 1]);
      StepIntends(Run(p, terms, es[..|es| - 1]), terms, es[|es| - 1]);
      StepLogged(Run(p, terms, es[..|es| - 1]), terms, es[|es| - 1]);
      StepAnswered(Run(p, terms, es[..|es| - 1]), terms, es[|es| - 1]);
    }
  }

  lemma AtMostOne(s: set<nat>, r: nat, q: nat)
    requires |s| <= 1 && r in s && q in s
    ensures r == q
  {
    if r != q { assert {r, q} <= s; SubsetSize({r, q}, s); }
  }

  /** The bytes of a package are served at most once, as long as no unlink after a read fails. */
  lemma ServedOnce(terms: Terms, es: seq<Event>, r: nat, q: nat)
    requires var t := Run(Fresh(), terms, es);
             t.failed == 0 && r in t.requests && q in t.requests && t.requests[r] == Done(true)
                 && t.requests[q] == Done(true)
    ensures r == q && !Run(Fresh(), terms, es).file && Consumed in Run(Fresh(), terms, es).log
  {
    hide Step, Run;
    EveryRun(Fresh(), terms, es);
    AtMostOne(Run(Fresh(), terms, es).readers, r, q);
    if Run(Fresh(), terms, es).readers == {} { assert false; }
  }

  /** In general they are served at most once more than unlinks failed. */
  lemma ServedBound(terms: Terms, es: seq<Event>)
    ensures var t := Run(Fresh(), terms, es);
            |t.readers| <= 1 + t.failed && forall r :: r in t.requests && t.requests[r] == Done(true) ==> r in t.readers
  {
    hide Step, Run;
    EveryRun(Fresh(), terms, es);
  }

  /** Once another status is committed, no package returns to `generated`. */
  lemma NeverGeneratedAgain(terms: Terms, es: seq<Event>, more: seq<Event>)
    requires Run(Fresh(), terms, es).row.status != Generated
    ensures Run(Run(Fresh(), terms, es), terms, more).row.status != Generated
  {
    hide Step, Run;
    EveryRun(Fresh(), terms, es);
    EveryRun(Run(Fresh(), terms, es), terms, more);
  }

  predicate Ended(p: Package, r: nat, phase: Phase) { r in p.requests && p.requests[r] == phase }

  const FINE := Disk(true, true)

  lemma RunOne(p: Package, terms: Terms, es: seq<Event>, e: Event)
    ensures Run(p, terms, es + [e]) == Step(Run(p, terms, es), terms, e)
  {
    hide Step;
    assert (es + [e])[..|es|] == es;
  }

  lemma RunTwo(p: Package, terms: Terms, d: Event, e: Event)
    ensures Run(p, terms, [d, e]) == Step(Step(p, terms, d), terms, e)
  {
    hide Step;
    RunOne(p, terms, [], d);
    RunOne(p, terms, [d], e);
    assert [] + [d] == [d] && [d] + [e] == [d, e];
  }

  lemma {:induction false} RunConcat(p: Package, terms: Terms, a: seq<Event>, b: seq<Event>)
    ensures Run(p, terms, a + b) == Run(Run(p, terms, a), terms, b)
  {
    hide Step;
    if b == [] {
      assert a + b == a;
    } else {
      assert (a + b)[..|a + b| - 1] == a + b[..|b| - 1];
      RunConcat(p, terms, a, b[..|b| - 1]);
    }
  }

  // ---- when `consumed` is final ----

  /** An effectively `generated` package may still be met at some instant from `since` on (at any
      instant when none is given). */
  predicate Live(terms: Terms, since: Option<int>) {
    !terms.stale && (since.Some? && terms.expires.Some? ==> since.value < terms.expires.value)
  }

  /** A request that can no longer write anything but `consumed`. */
  predicate Harmless(phase: Phase, terms: Terms, since: Option<int>) {
    match phase
    case Loaded(Download, copy) => copy.status == Generated ==> !Live(terms, since)
    case Loaded(Sweep, copy) => copy.status == Generated ==> terms.expires.None? && !terms.stale
    case Loaded(Delete, copy) => copy.status == Deleted
    case Loaded(Ingest, _) => false
    case Acted(write, _, _) => write.None? || write == Some(Consumed)
    case Done(_) => true
    case Failed => true
  }

  predicate Quiet(p: Package, terms: Terms, since: Option<int>) {
    forall r :: r in p.requests ==> Harmless(p.requests[r], terms, since)
  }

  /** What comes next starts no delete and no ingest, and acts no earlier than `since`. */
  predicate Goes(e: Event, since: Option<int>) {
    (e.Load? ==> e.kind == Download || e.kind == Sweep) && (e.Act? && since.Some? ==> since.value <= e.now)
  }

  predicate Continues(es: seq<Event>, since: Option<int>) { forall k :: 0 <= k < |es| ==> Goes(es[k], since) }

  /** The row's lock is held by an ingest on its way, or by nobody. */
  predicate Locked(p: Package) {
    p.holder.Some? ==>
      && p.holder.value in p.requests
      && var phase := p.requests[p.holder.value];
         (phase.Loaded? && phase.kind == Ingest) || (phase.Acted? && phase.write == Some(Ingested))
  }

  lemma StepLocked(p: Package, terms: Terms, e: Event)
    requires Locked(p)
    ensures Locked(Step(p, terms, e))
  {
    hide Effective, Reclaimable;
  }

  lemma {:induction false} RunLocked(p: Package, terms: Terms, es: seq<Event>)
    requires Locked(p)
    ensures Locked(Run(p, terms, es))
  {
    hide Step, Locked;
    if es != [] {
      RunLocked(p, terms, es[..|es| - 1]);
      StepLocked(Run(p, terms, es[..|es| - 1]), terms, es[|es| - 1]);
    }
  }

  lemma HarmlessTurn(p: Package, r: nat, kind: Kind, copy: Row, terms: Terms, now: int, disk: Disk, since: Option<int>)
    requires Harmless(Loaded(kind, copy), terms, since) && (since.Some? ==> since.value <= now)
    ensures var t := Turn(p, r, kind, copy, terms, now, disk);
            t.requests == p.requests[r := t.requests[r]] && Harmless(t.requests[r], terms, since) && t.row == p.row
  {
  }

  lemma StepQuiet(p: Package, terms: Terms, e: Event, since: Option<int>)
    requires Quiet(p, terms, since) && p.row.status == Consumed && Goes(e, since)
    ensures Quiet(Step(p, terms, e), terms, since) && Step(p, terms, e).row.status == Consumed
  {
    hide Turn, Live;
    if e.Act? && e.r in p.requests && p.requests[e.r].Loaded? {
      HarmlessTurn(p, e.r, p.requests[e.r].kind, p.requests[e.r].copy, terms, e.now, e.disk, since);
    }
  }

  lemma {:induction false} QuietStays(p: Package, terms: Terms, es: seq<Event>, since: Option<int>)
    requires Quiet(p, terms, since) && p.row.status == Consumed && Continues(es, since)
    ensures Quiet(Run(p, terms, es), terms, since) && Run(p, terms, es).row.status == Consumed
  {
    hide Step, Quiet, Goes;
    if es != [] {
      QuietStays(p, terms, es[..|es| - 1], since);
      StepQuiet(Run(p, terms, es[..|es| - 1]), terms, es[|es| - 1], since);
    }
  }

  /** When a request that is not harmless acts so as to write something else. */
  function BadTime(phase: Phase, terms: Terms, since: Option<int>): int {
    if phase.Loaded? && phase.kind == Sweep && terms.expires.Some? then
      if since.Some? && since.value > terms.expires.value then since.value else terms.expires.value
    else if since.Some? then since.value
    else if terms.expires.Some? then terms.expires.value - 1
    else 0
  }

  lemma BadTurn(p: Package, r: nat, phase: Phase, terms: Terms, since: Option<int>)
    requires phase.Loaded? && !Harmless(phase, terms, since)
    ensures var now := BadTime(phase, terms, since);
            var t := Turn(p, r, phase.kind, phase.copy, terms, now, Disk(false, true));
            && (since.Some? ==> since.value <= now) && t.holder == p.holder && r in t.requests && t.requests[r].Acted?
            && t.requests[r].write.Some? && t.requests[r].write.value != Consumed
  {
  }

  lemma BadCommit(p: Package, terms: Terms, r: nat)
    requires r in p.requests && p.requests[r].Acted? && p.requests[r].write.Some?
        && p.requests[r].write.value != Consumed
    requires p.holder.None? || p.holder == Some(r)
    ensures Step(p, terms, Commit(r)).row.status != Consumed
  {
  }

  /** A request that is not harmless, and need not wait for the lock, can overwrite the status. */
  lemma Overwrites(p: Package, terms: Terms, since: Option<int>, r: nat) returns (es: seq<Event>)
    requires r in p.requests && !Harmless(p.requests[r], terms, since) && (p.holder.None? || p.holder == Some(r))
    ensures Continues(es, since) && Run(p, terms, es).row.status != Consumed
  {
    hide Turn, Run, BadTime;
    var phase := p.requests[r];
    if phase.Acted? {
      es := [Commit(r)];
      RunOne(p, terms, [], Commit(r));
      assert [] + [Commit(r)] == es && Run(p, terms, []) == p by { RunNone(p, terms); }
      BadCommit(p, terms, r);
    } else {
      var act := Act(r, BadTime(phase, terms, since), Disk(false, true));
      es := [act, Commit(r)];
      BadTurn(p, r, phase, terms, since);
      RunTwo(p, terms, act, Commit(r));
      BadCommit(Step(p, terms, act), terms, r);
    }
  }

  lemma RunNone(p: Package, terms: Terms)
    ensures Run(p, terms, []) == p
  {
  }

  lemma HolderNotHarmless(p: Package, terms: Terms, since: Option<int>)
    requires Locked(p) && p.holder.Some?
    ensures p.holder.value in p.requests && !Harmless(p.requests[p.holder.value], terms, since)
  {
  }

  ghost predicate StaysConsumed(p: Package, terms: Terms, since: Option<int>) {
    forall es :: Continues(es, since) ==> Run(p, terms, es).row.status == Consumed
  }

  /** A committed `consumed` is final, as long as nobody starts a delete or an ingest, if and only if
      every request in flight is harmless: no download holds a copy that may still be found live, no
      sweep one that it can turn, no delete or ingest is under way, and whoever is about to commit
      writes nothing or `consumed`. */
  lemma ConsumedFinal(p: Package, terms: Terms, since: Option<int>)
    requires Locked(p) && p.row.status == Consumed
    ensures StaysConsumed(p, terms, since) <==> Quiet(p, terms, since)
  {
    hide Step, Run, Harmless, Goes, Locked;
    if Quiet(p, terms, since) {
      forall es | Continues(es, since) ensures Run(p, terms, es).row.status == Consumed {
        QuietStays(p, terms, es, since);
      }
    } else {
      var q :| q in p.requests && !Harmless(p.requests[q], terms, since);
      if p.holder.Some? { HolderNotHarmless(p, terms, since); }
      var es := Overwrites(p, terms, since, if p.holder.Some? then p.holder.value else q);
    }
  }

  /** The same of every package a run has consumed. */
  lemma ConsumedFinalOfRun(terms: Terms, es: seq<Event>, since: Option<int>)
    requires Run(Fresh(), terms, es).row.status == Consumed
    ensures StaysConsumed(Run(Fresh(), terms, es), terms, since) <==> Quiet(Run(Fresh(), terms, es), terms, since)
  {
    hide Step, Run, StaysConsumed, Quiet;
    RunLocked(Fresh(), terms, es);
    ConsumedFinal(Run(Fresh(), terms, es), terms, since);
  }

  /** A run in which it is not: a download that read the row before the first one committed finds no
      file, and commits `expired` over it. */
  lemma LoserOverwrites(terms: Terms, now: int)
    requires Effective(Generated, terms, now) == Generated
    ensures var t := Run(Fresh(), terms, Race(now));
            Ended(t, 0, Done(true)) && Ended(t, 1, Done(false)) && t.row.status == Expired
                && t.log == [Consumed, Expired]
  {
    RaceIsRun(terms, now);
    var p2 := Step(Step(Fresh(), terms, Load(0, Download)), terms, Load(1, Download));
    assert Ended(p2, 0, Loaded(Download, Row(Generated, true))) && Ended(p2, 1, Loaded(Download, Row(Generated, true)));
    var p4 := Step(Step(p2, terms, Act(0, now, FINE)), terms, Commit(0));
    assert Ended(p4, 0, Done(true)) && p4.row.status == Consumed && !p4.file && p4.holder == None
        && p4.log == [Consumed];
    assert Ended(p4, 1, Loaded(Download, Row(Generated, true)));
    hide Race, Fresh;
  }

  /** Two downloads that both read the row before either acts. */
  function Race(now: int): seq<Event> {
    [Load(0, Download), Load(1, Download), Act(0, now, FINE), Commit(0), Act(1, now, FINE), Commit(1)]
  }

  lemma RaceIsRun(terms: Terms, now: int)
    ensures var p2 := Step(Step(Fresh(), terms, Load(0, Download)), terms, Load(1, Download));
            var p4 := Step(Step(p2, terms, Act(0, now, FINE)), terms, Commit(0));
            Run(Fresh(), terms, Race(now)) == Step(Step(p4, terms, Act(1, now, FINE)), terms, Commit(1))
  {
    hide Step, Run;
    var a, b := [Load(0, Download), Load(1, Download)], [Act(0, now, FINE), Commit(0)];
    var c := [Act(1, now, FINE), Commit(1)];
    assert Race(now) == a + b + c;
    RunConcat(Fresh(), terms, a + b, c);
    RunConcat(Fresh(), terms, a, b);
    RunTwo(Fresh(), terms, a[0], a[1]);
    RunTwo(Run(Fresh(), terms, a), terms, b[0], b[1]);
    RunTwo(Run(Fresh(), terms, a + b), terms, c[0], c[1]);
  }

  // ---- the bound on serving is reached ----

  /** Requests 0 to n - 1, all downloads, do the same thing one after another. */
  function Loads(n: nat): seq<Event> { if n == 0 then [] else Loads(n - 1) + [Load(n - 1, Download)] }

  function Reads(n: nat, now: int): seq<Event> {
    if n == 0 then [] else Reads(n - 1, now) + [Act(n - 1, now, Disk(true, false))]
  }

  function Commits(n: nat): seq<Event> { if n == 0 then [] else Commits(n - 1) + [Commit(n - 1)] }

  /** The first `total` requests have read the row, the first `read` of them the bytes, each failing
      to remove the ZIP. */
  ghost predicate Crowd(p: Package, total: nat, read: nat) {
    && p.row == Row(Generated, true) && p.holder == None && p.file && p.failed == read && |p.readers| == read
    && (forall r :: r in p.readers ==> r < read)
    && (forall r: nat :: r in p.requests <==> r < total)
    && (forall r :: r in p.requests ==>
          p.requests[r] == if r < read then Acted(Some(Consumed), true, true)
              else Loaded(Download, Row(Generated, true)))
  }

  lemma NoCrowd()
    ensures Crowd(Fresh(), 0, 0)
  {
  }

  lemma {:induction false} CrowdLoads(terms: Terms, n: nat)
    ensures Crowd(Run(Fresh(), terms, Loads(n)), n, 0)
  {
    hide Run, Step, Crowd, Fresh;
    if n == 0 {
      NoCrowd();
      RunNone(Fresh(), terms);
    } else {
      CrowdLoads(terms, n - 1);
      RunOne(Fresh(), terms, Loads(n - 1), Load(n - 1, Download));
      OneMoreLoad(Run(Fresh(), terms, Loads(n - 1)), terms, n - 1);
    }
  }

  lemma {:induction false} CrowdReads(p: Package, terms: Terms, now: int, n: nat, k: nat)
    requires Crowd(p, n, 0) && k <= n && Effective(Generated, terms, now) == Generated
    ensures Crowd(Run(p, terms, Reads(k, now)), n, k)
  {
    if k > 0 {
      hide Effective, Run;
      CrowdReads(p, terms, now, n, k - 1);
      RunOne(p, terms, Reads(k - 1, now), Act(k - 1, now, Disk(true, false)));
      OneMoreRead(Run(p, terms, Reads(k - 1, now)), terms, now, n, k - 1);
    } else {
      assert Reads(0, now) == [];
    }
  }

  lemma OneMoreLoad(p: Package, terms: Terms, n: nat)
    requires Crowd(p, n, 0)
    ensures Crowd(Step(p, terms, Load(n, Download)), n + 1, 0)
  {
    assert n !in p.requests;
  }

  lemma OneMoreRead(p: Package, terms: Terms, now: int, n: nat, k: nat)
    requires Crowd(p, n, k) && k < n && Effective(Generated, terms, now) == Generated
    ensures Crowd(Step(p, terms, Act(k, now, Disk(true, false))), n, k + 1)
  {
    hide Effective;
    assert k !in p.readers;
  }

  /** All `n` requests have read the bytes, one unlink worked, and the first `done` have committed. */
  ghost predicate Answering(p: Package, n: nat, done: nat) {
    && p.holder == None && |p.readers| == n && p.failed + 1 == n && !p.file
    && (forall r: nat :: r in p.requests <==> r < n)
    && (forall r :: r in p.requests ==> p.requests[r] == if r < done then Done(true)
        else Acted(Some(Consumed), true, true))
  }

  lemma LastRead(p: Package, terms: Terms, now: int, n: nat)
    requires Crowd(p, n + 1, n) && Effective(Generated, terms, now) == Generated
    ensures Answering(Step(p, terms, Act(n, now, FINE)), n + 1, 0)
  {
    hide Effective;
    assert n !in p.readers;
  }

  lemma OneMoreCommit(p: Package, terms: Terms, n: nat, k: nat)
    requires Answering(p, n, k) && k < n
    ensures Answering(Step(p, terms, Commit(k)), n, k + 1)
  {
    hide Turn;
    assert k in p.requests;
  }

  lemma {:induction false} CommitsAnswer(p: Package, terms: Terms, n: nat, k: nat)
    requires Answering(p, n, 0) && k <= n
    ensures Answering(Run(p, terms, Commits(k)), n, k)
  {
    hide Run, Step, Answering;
    if k == 0 {
      RunNone(p, terms);
    } else {
      CommitsAnswer(p, terms, n, k - 1);
      RunOne(p, terms, Commits(k - 1), Commit(k - 1));
      OneMoreCommit(Run(p, terms, Commits(k - 1)), terms, n, k - 1);
    }
  }

  /** For every number of failed unlinks there is a run in which one more request than that is
      answered with the bytes. */
  lemma BoundReached(terms: Terms, now: int, n: nat) returns (es: seq<Event>)
    requires Effective(Generated, terms, now) == Generated
    ensures var t := Run(Fresh(), terms, es);
            t.failed == n && |t.readers| == n + 1 && forall r: nat :: r <= n ==> Ended(t, r, Done(true))
  {
    hide Step, Run, Effective;
    var a, b, c, d := Loads(n + 1), Reads(n, now), [Act(n, now, FINE)], Commits(n + 1);
    es := a + b + c + d;
    CrowdLoads(terms, n + 1);
    RunConcat(Fresh(), terms, a, b);
    CrowdReads(Run(Fresh(), terms, a), terms, now, n + 1, n);
    RunOne(Fresh(), terms, a + b, c[0]);
    LastRead(Run(Fresh(), terms, a + b), terms, now, n);
    RunConcat(Fresh(), terms, a + b + c, d);
    CommitsAnswer(Run(Fresh(), terms, a + b + c), terms, n + 1, n + 1);
  }

  // ---- one request on its own ----

  /** Read, act and commit with nothing in between. */
  function Alone(p: Package, terms: Terms, r: nat, kind: Kind, now: int, disk: Disk): Package {
    Step(Step(Step(p, terms, Load(r, kind)), terms, Act(r, now, disk)), terms, Commit(r))
  }

  /** A download is answered with the bytes exactly when the package is effectively `generated` and
      its file can be read; then the row says so, and the file is gone if it could be removed. An
      effectively `generated` package whose file cannot be read becomes `expired`. */
  lemma DownloadAlone(p: Package, terms: Terms, r: nat, now: int, disk: Disk)
    requires r !in p.requests && p.holder == None
    ensures var live, t := Effective(p.row.status, terms, now) == Generated, Alone(p, terms, r, Download, now, disk);
            var served := live && p.file && disk.readable;
            && (Ended(t, r, Done(true)) <==> served)
            && t.file == (p.file && !(served && disk.removable))
            && t.row == if !live then p.row else Row(if served then Consumed else Expired, false)
  {
    hide Effective;
  }

  /** A delete always ends in `deleted`, and removes a file its row knows of. */
  lemma DeleteAlone(p: Package, terms: Terms, r: nat, now: int, disk: Disk)
    requires r !in p.requests && p.holder == None
    ensures var t := Alone(p, terms, r, Delete, now, disk);
            t.row == Row(Deleted, false) && t.file == (p.file && !(p.row.path && disk.removable))
  {
    hide Effective;
  }

  /** An ingest is refused after an ingest or a delete, else it ends in `ingested` and keeps the file. */
  lemma IngestAlone(p: Package, terms: Terms, r: nat, now: int, disk: Disk)
    requires r !in p.requests && p.holder == None
    ensures var t := Alone(p, terms, r, Ingest, now, disk);
            && t.file == p.file && t.holder == None
            && t.row == if p.row.status in {Ingested, Deleted} then p.row else Row(Ingested, p.row.path)
  {
    hide Effective;
  }
}
