/** Retention of collection packages: the lazy sweep, the status it must agree with, and the cap on
    active packages (backend/collectors/retention.py, backend/collectors/routes.py). */
module CollectionRetention {
  import opened Optional
  import opened CollectionRaces

  datatype Pkg = Pkg(id: string, incident: string, status: Status, expires: Option<int>, version: Option<string>,
      path: bool)

  /** What the sweep depends on besides rows and files: the clock, the configured Velociraptor
      version ("" turns staleness off), and for which packages the file can be removed. */
  datatype Env = Env(now: int, current: string, removable: string -> bool)

  function IsStale(p: Pkg, current: string): bool {
    current != "" && (if p.version.Some? then p.version.value else "") != current
  }

  function EffectiveOf(p: Pkg, now: int, current: string): Status {
    Effective(p.status, Terms(p.expires, IsStale(p, current)), now)
  }

  function ActiveCount(rows: seq<Pkg>, inc: string, now: int, current: string): nat {
    if rows == [] then 0
    else
      var p := rows[|rows| - 1];
      ActiveCount(rows[..|rows| - 1], inc, now, current)
      + if p.incident == inc && p.status == Generated && EffectiveOf(p, now, current) == Generated then 1 else 0
  }

  /** Waiting for its download: of the incident, generated, its token not run out, and built with the
      configured version where one is configured. */
  predicate Active(p: Pkg, inc: string, now: int, current: string) {
    && p.incident == inc && p.status == Generated && (p.expires.Some? ==> now < p.expires.value)
    && (current != "" ==> p.version == Some(current))
  }

  /** The places of an incident's active packages. */
  function ActiveAt(rows: seq<Pkg>, inc: string, now: int, current: string): set<nat> {
    set i: nat | i < |rows| && Active(rows[i], inc, now, current)
  }

  /** A package is stale when a version is configured and it was built with another, or with none. */
  lemma StaleIs(p: Pkg, current: string)
    ensures IsStale(p, current) <==> current != "" && p.version != Some(current)
    ensures forall inc, now :: Active(p, inc, now, current) <==>
              p.incident == inc && p.status == Generated && EffectiveOf(p, now, current) == Generated
  {
  }

  /** The count counts every active package, once. */
  lemma {:induction false} ActiveCountIs(rows: seq<Pkg>, inc: string, now: int, current: string)
    ensures ActiveCount(rows, inc, now, current) == |ActiveAt(rows, inc, now, current)|
  {
    if rows != [] {
      hide EffectiveOf, Active;
      var n := |rows| - 1;
      ActiveCountIs(rows[..n], inc, now, current);
      StaleIs(rows[n], current);
      assert ActiveAt(rows, inc, now, current)
          == ActiveAt(rows[..n], inc, now, current) + if Active(rows[n], inc, now, current) then {n} else {};
    }
  }

  // ---- the sweep of one row ----

  /** Whether the row's ZIP is to be reclaimed, and whether that works: the file is removed, or was not there. */
  predicate Reclaims(p: Pkg, env: Env) { Reclaimable(EffectiveOf(p, env.now, env.current)) && p.path }

  predicate Cleared(p: Pkg, files: map<string, nat>, env: Env) {
    Reclaims(p, env) && (p.id !in files || env.removable(p.id))
  }

  function SweptRow(p: Pkg, files: map<string, nat>, env: Env): Pkg {
    p.(status := EffectiveOf(p, env.now, env.current), path := p.path && !Cleared(p, files, env))
  }

  function SweptFiles(p: Pkg, files: map<string, nat>, env: Env): map<string, nat> {
    if Cleared(p, files, env) then files - {p.id} else files
  }

  function Freed(p: Pkg, files: map<string, nat>, env: Env): nat {
    if Cleared(p, files, env) && p.id in files then files[p.id] else 0
  }

  // ---- the sweep ----

  datatype Swept = Swept(rows: seq<Pkg>, files: map<string, nat>, expired: nat, superseded: nat, reclaimed: nat,
      bytes: nat)

  function SweepNext(s: Swept, p: Pkg, env: Env): Swept {
    var q := SweptRow(p, s.files, env);
    Swept(s.rows + [q], SweptFiles(p, s.files, env),
          s.expired + if p.status == Generated && q.status == Expired then 1 else 0,
          s.superseded + if p.status == Generated && q.status == Superseded then 1 else 0,
          s.reclaimed + if Cleared(p, s.files, env) then 1 else 0,
          s.bytes + Freed(p, s.files, env))
  }

  /** The rows in the order read, each against the files the ones before it left. */
  function SweepAll(rows: seq<Pkg>, files: map<string, nat>, env: Env): Swept {
    if rows == [] then Swept([], files, 0, 0, 0, 0)
    else SweepNext(SweepAll(rows[..|rows| - 1], files, env), rows[|rows| - 1], env)
  }

  class Collections {
    var rows: seq<Pkg>
    var files: map<string, nat>

    constructor ()
      ensures rows == [] && files == map[]
    {
      rows, files := [], map[];
    }

    /** _unlink: best effort; the row forgets its path only when no file is left. */
    method Unlink(i: nat, env: Env) returns (freed: nat)
      requires i < |rows|
      modifies this
      ensures var p := old(rows)[i];
              var gone := p.path && (p.id !in old(files) || env.removable(p.id));
              && rows == old(rows)[i := p.(path := p.path && !gone)]
              && files == (if gone then old(files) - {p.id} else old(files))
              && freed == if gone && p.id in old(files) then old(files)[p.id] else 0
    {
      if !rows[i].path { return 0; }
      freed := 0;
      if rows[i].id in files {
        if !env.removable(rows[i].id) { return 0; }
        freed := files[rows[i].id];
      }
      files := files - {rows[i].id};
      rows := rows[i := rows[i].(path := false)];
    }

    /** The body of the sweep's loop. */
    method SweepOne(i: nat, env: Env) returns (expired: bool, superseded: bool, reclaimed: bool, freed: nat)
      requires i < |rows|
      modifies this
      ensures var p := old(rows)[i];
              && rows == old(rows)[i := SweptRow(p, old(files), env)]
              && files == SweptFiles(p, old(files), env)
              && expired == (p.status == Generated && rows[i].status == Expired)
              && superseded == (p.status == Generated && rows[i].status == Superseded)
              && reclaimed == Cleared(p, old(files), env)
              && freed == Freed(p, old(files), env) && (!reclaimed ==> freed == 0)
    {
      expired, superseded, reclaimed, freed := false, false, false, 0;
      if rows[i].status == Generated {
        if rows[i].expires.Some? && env.now >= rows[i].expires.value {
          rows := rows[i := rows[i].(status := Expired)];
          expired := true;
        } else if IsStale(rows[i], env.current) {
          rows := rows[i := rows[i].(status := Superseded)];
          superseded := true;
        }
      }
      if Reclaimable(rows[i].status) && rows[i].path {
        freed := Unlink(i, env);
        reclaimed := freed > 0 || !rows[i].path;
      }
    }

    method Sweep(env: Env) returns (expired: nat, superseded: nat, reclaimed: nat, bytes: nat)
      modifies this
      ensures Swept(rows, files, expired, superseded, reclaimed, bytes) == SweepAll(old(rows), old(files), env)
    {
      hide SweptRow, SweptFiles, Freed, Cleared;
      expired, superseded, reclaimed, bytes := 0, 0, 0, 0;
      for i := 0 to |rows|
        invariant |rows| == |old(rows)| && rows[i..] == old(rows)[i..]
        invariant Swept(rows[..i], files, expired, superseded, reclaimed, bytes)
            == SweepAll(old(rows)[..i], old(files), env)
      {
        ghost var before, at := rows, files;
        OneTurn(old(rows), rows, i, SweptRow(rows[i], files, env));
        var e, s, r, freed := SweepOne(i, env);
        if e { expired := expired + 1; }
        if s { superseded := superseded + 1; }
        if r { reclaimed, bytes := reclaimed + 1, bytes + freed; }
        assert rows == before[i := SweptRow(before[i], at, env)];
        assert SweepAll(old(rows)[..i + 1], old(files), env)
            == SweepNext(SweepAll(old(rows)[..i], old(files), env), old(rows)[i], env);
      }
      assert old(rows)[..|rows|] == old(rows) && rows[..|rows|] == rows;
    }
  }

  /** The rows swept so far and those still to come, one turn on. */
  lemma OneTurn(was: seq<Pkg>, rows: seq<Pkg>, i: nat, q: Pkg)
    requires i < |rows| == |was| && rows[i..] == was[i..]
    ensures rows[i] == was[i] && rows[i := q][..i + 1] == rows[..i] + [q] && rows[i := q][i + 1..] == was[i + 1..]
    ensures was[..i + 1][..i] == was[..i] && was[..i + 1][i] == was[i]
  {
    assert rows[i] == rows[i..][0] == was[i..][0];
    assert rows[i := q][i + 1..] == rows[i..][1..] == was[i..][1..];
  }

  // ---- what the sweep achieves ----

  /** Rows keep their number, order and everything but status and path; each status becomes what
      effective_status said before. */
  lemma {:induction false} SweepShowsEffective(rows: seq<Pkg>, files: map<string, nat>, env: Env)
    ensures var s := SweepAll(rows, files, env);
            |s.rows| == |rows| && forall i :: 0 <= i < |rows| ==>
              s.rows[i] == rows[i].(status := EffectiveOf(rows[i], env.now, env.current), path := s.rows[i].path)
              && (s.rows[i].path ==> rows[i].path)
  {
    hide EffectiveOf, Cleared, SweptFiles, Freed;
    if rows != [] { SweepShowsEffective(rows[..|rows| - 1], files, env); }
  }

  lemma EffectiveTwice(p: Pkg, q: Pkg, env: Env)
    requires q == p.(status := EffectiveOf(p, env.now, env.current), path := q.path)
    ensures EffectiveOf(q, env.now, env.current) == q.status
    ensures q.status == Generated <==> p.status == Generated && EffectiveOf(p, env.now, env.current) == Generated
  {
  }

  /** No incident gains or loses an active package. */
  lemma {:induction false} SweepKeepsActive(rows: seq<Pkg>, files: map<string, nat>, env: Env, inc: string)
    ensures ActiveCount(SweepAll(rows, files, env).rows, inc, env.now, env.current)
        == ActiveCount(rows, inc, env.now, env.current)
  {
    if rows != [] {
      SweepShowsEffective(rows, files, env);
      hide EffectiveOf, Cleared, SweptFiles, Freed, IsStale, Effective;
      var n := |rows| - 1;
      SweepKeepsActive(rows[..n], files, env, inc);
      var s := SweepAll(rows, files, env);
      assert s.rows[..n] == SweepAll(rows[..n], files, env).rows;
      EffectiveTwice(rows[n], s.rows[n], env);
    }
  }

  predicate DistinctIds(rows: seq<Pkg>) { forall i, j :: 0 <= i < j < |rows| ==> rows[i].id != rows[j].id }

  /** Bytes on disk of the packages listed. */
  function OnDisk(rows: seq<Pkg>, files: map<string, nat>): nat {
    if rows == [] then 0
    else OnDisk(rows[..|rows| - 1], files) + if rows[|rows| - 1].id in files then files[rows[|rows| - 1].id] else 0
  }

  lemma {:induction false} OnDiskOthers(rows: seq<Pkg>, files: map<string, nat>, id: string)
    requires forall i :: 0 <= i < |rows| ==> rows[i].id != id
    ensures OnDisk(rows, files - {id}) == OnDisk(rows, files)
  {
    if rows != [] { OnDiskOthers(rows[..|rows| - 1], files, id); }
  }

  lemma {:induction false} SweepLeavesOthers(rows: seq<Pkg>, files: map<string, nat>, env: Env, id: string)
    requires forall i :: 0 <= i < |rows| ==> rows[i].id != id
    ensures var t := SweepAll(rows, files, env).files;
            (id in t <==> id in files) && (id in t ==> t[id] == files[id])
  {
    hide Cleared, Freed, SweptRow;
    if rows != [] { SweepLeavesOthers(rows[..|rows| - 1], files, env, id); }
  }

  /** Some row of that id has its ZIP reclaimed. */
  ghost predicate Reclaimed(rows: seq<Pkg>, files: map<string, nat>, env: Env, id: string) {
    exists i :: 0 <= i < |rows| && rows[i].id == id && Cleared(rows[i], files, env)
  }

  /** A file is gone after the sweep exactly when its own row is reclaimable and it could be removed;
      every other file stays as it was, and none appears. */
  lemma {:induction false} SweepFilesExact(rows: seq<Pkg>, files: map<string, nat>, env: Env, id: string)
    requires DistinctIds(rows)
    ensures var t := SweepAll(rows, files, env).files;
            (id in t <==> id in files && !Reclaimed(rows, files, env, id)) && (id in t ==> t[id] == files[id])
  {
    hide Freed, SweptRow, Reclaims;
    if rows != [] {
      var n := |rows| - 1;
      SweepFilesExact(rows[..n], files, env, id);
      SweepLeavesOthers(rows[..n], files, env, rows[n].id);
      if Reclaimed(rows[..n], files, env, id) {
        var i :| 0 <= i < n && rows[..n][i].id == id && Cleared(rows[..n][i], files, env);
        assert rows[i].id == id && Cleared(rows[i], files, env);
      }
      if Reclaimed(rows, files, env, id) && id != rows[n].id {
        var i :| 0 <= i < |rows| && rows[i].id == id && Cleared(rows[i], files, env);
        assert rows[..n][i].id == id && Cleared(rows[..n][i], files, env);
      }
      if id == rows[n].id && Cleared(rows[n], files, env) { assert Reclaimed(rows, files, env, id); }
    }
  }

  /** The bytes reported as reclaimed are exactly the bytes gone from the disk. */
  lemma {:induction false} SweepConservesBytes(rows: seq<Pkg>, files: map<string, nat>, env: Env)
    requires DistinctIds(rows)
    ensures OnDisk(rows, SweepAll(rows, files, env).files) + SweepAll(rows, files, env).bytes == OnDisk(rows, files)
  {
    hide Cleared, SweptRow;
    if rows != [] {
      var n := |rows| - 1;
      var id := rows[n].id;
      SweepConservesBytes(rows[..n], files, env);
      SweepLeavesOthers(rows[..n], files, env, id);
      OnDiskOthers(rows[..n], SweepAll(rows[..n], files, env).files, id);
    }
  }

  /** Nothing is left to do for a row. */
  predicate SettledRow(p: Pkg, files: map<string, nat>, env: Env) {
    EffectiveOf(p, env.now, env.current) == p.status && !Cleared(p, files, env)
  }

  predicate Settled(rows: seq<Pkg>, files: map<string, nat>, env: Env) {
    forall i :: 0 <= i < |rows| ==> SettledRow(rows[i], files, env)
  }

  lemma SweptRowSettles(p: Pkg, files: map<string, nat>, env: Env)
    ensures SettledRow(SweptRow(p, files, env), SweptFiles(p, files, env), env)
  {
  }

  lemma SettledElsewhere(p: Pkg, files: map<string, nat>, other: map<string, nat>, env: Env)
    requires SettledRow(p, files, env) && (p.id in files <==> p.id in other)
    ensures SettledRow(p, other, env)
  {
  }

  lemma {:induction false} SweepSettles(rows: seq<Pkg>, files: map<string, nat>, env: Env)
    requires DistinctIds(rows)
    ensures Settled(SweepAll(rows, files, env).rows, SweepAll(rows, files, env).files, env)
  {
    hide SettledRow, Cleared, Freed;
    if rows != [] {
      var n := |rows| - 1;
      SweepSettles(rows[..n], files, env);
      SweepShowsEffective(rows[..n], files, env);
      var s, t := SweepAll(rows[..n], files, env), SweepAll(rows, files, env);
      SweptRowSettles(rows[n], s.files, env);
      forall i | 0 <= i < n ensures SettledRow(t.rows[i], t.files, env) {
        assert t.rows[i] == s.rows[i] && s.rows[i].id == rows[i].id != rows[n].id;
        SettledElsewhere(s.rows[i], s.files, t.files, env);
      }
    }
  }

  lemma {:induction false} SettledSweep(rows: seq<Pkg>, files: map<string, nat>, env: Env)
    requires Settled(rows, files, env)
    ensures SweepAll(rows, files, env) == Swept(rows, files, 0, 0, 0, 0)
  {
    if rows != [] {
      var n := |rows| - 1;
      SettledSweep(rows[..n], files, env);
      assert SettledRow(rows[n], files, env);
      assert rows == rows[..n] + [rows[n]];
    }
  }

  /** At one instant a second sweep finds nothing to do, whatever could not be removed. */
  lemma SweepIdempotent(rows: seq<Pkg>, files: map<string, nat>, env: Env)
    requires DistinctIds(rows)
    ensures var s := SweepAll(rows, files, env);
            SweepAll(s.rows, s.files, env) == Swept(s.rows, s.files, 0, 0, 0, 0)
  {
    hide *;
    SweepSettles(rows, files, env);
    SettledSweep(SweepAll(rows, files, env).rows, SweepAll(rows, files, env).files, env);
  }

  /** A live `generated` package, or an `ingested` one: its file is to stay. */
  predicate Needed(p: Pkg, env: Env) { EffectiveOf(p, env.now, env.current) in {Generated, Ingested} }

  lemma ReclaimsIs(p: Pkg, env: Env)
    ensures Reclaims(p, env) <==> p.path && !Needed(p, env)
  {
    hide IsStale;
  }

  /** What the sweep leaves of a package: its row keeps its path, and its file stays, where it is needed
      or cannot be removed; of any other whose row knows of a file, neither is left. So without I/O
      errors, and where no row forgot its file, exactly the needed packages keep their files. */
  lemma {:induction false} SweepLeaves(rows: seq<Pkg>, files: map<string, nat>, env: Env, i: nat)
    requires DistinctIds(rows) && i < |rows|
    ensures |SweepAll(rows, files, env).rows| == |rows|
    ensures var p, s := rows[i], SweepAll(rows, files, env);
            && s.rows[i].path == (p.path && (Needed(p, env) || (p.id in files && !env.removable(p.id))))
            && (p.id in s.files <==> p.id in files && (!p.path || Needed(p, env) || !env.removable(p.id)))
            && (Needed(p, env) <==> Needed(s.rows[i], env))
  {
    hide Freed, Effective, IsStale, Reclaims, EffectiveOf;
    var n := |rows| - 1;
    var s := SweepAll(rows[..n], files, env);
    SweepShowsEffective(rows, files, env);
    SweepShowsEffective(rows[..n], files, env);
    ReclaimsIs(rows[n], env);
    EffectiveTwice(rows[i], SweepAll(rows, files, env).rows[i], env);
    if i < n {
      assert SweepAll(rows, files, env).rows[i] == s.rows[i];
      SweepLeaves(rows[..n], files, env, i);
    } else {
      SweepLeavesOthers(rows[..n], files, env, rows[n].id);
    }
  }

  predicate TurnedAt(rows: seq<Pkg>, after: seq<Pkg>, i: nat, status: Status)
    requires i < |rows| == |after|
  {
    rows[i].status == Generated && after[i].status == status
  }

  /** The packages that were generated and have the given status now. */
  function Turned(rows: seq<Pkg>, after: seq<Pkg>, status: Status): set<nat>
    requires |rows| == |after|
  {
    set i: nat | i < |rows| && TurnedAt(rows, after, i, status)
  }

  predicate LostAt(rows: seq<Pkg>, after: seq<Pkg>, i: nat)
    requires i < |rows| == |after|
  {
    rows[i].path && !after[i].path
  }

  /** The packages whose rows forgot their file. */
  function Lost(rows: seq<Pkg>, after: seq<Pkg>): set<nat>
    requires |rows| == |after|
  {
    set i: nat | i < |rows| && LostAt(rows, after, i)
  }

  lemma TurnedMore(rows: seq<Pkg>, after: seq<Pkg>, status: Status)
    requires rows != [] && |after| == |rows|
    ensures var n := |rows| - 1;
            |Turned(rows, after, status)|
            == |Turned(rows[..n], after[..n], status)| + if TurnedAt(rows, after, n, status) then 1 else 0
  {
    var n := |rows| - 1;
    assert Turned(rows, after, status)
        == Turned(rows[..n], after[..n], status) + if TurnedAt(rows, after, n, status) then {n} else {};
  }

  lemma LostMore(rows: seq<Pkg>, after: seq<Pkg>)
    requires rows != [] && |after| == |rows|
    ensures var n := |rows| - 1;
            |Lost(rows, after)| == |Lost(rows[..n], after[..n])| + if LostAt(rows, after, n) then 1 else 0
  {
    var n := |rows| - 1;
    assert Lost(rows, after) == Lost(rows[..n], after[..n]) + if LostAt(rows, after, n) then {n} else {};
  }

  lemma SweepStep(rows: seq<Pkg>, files: map<string, nat>, env: Env)
    requires rows != [] && |SweepAll(rows[..|rows| - 1], files, env).rows| == |rows| - 1
    ensures var n := |rows| - 1;
            var before, s := SweepAll(rows[..n], files, env), SweepAll(rows, files, env);
            && |s.rows| == |rows| && s.rows[..n] == before.rows
            && s.expired == before.expired + (if TurnedAt(rows, s.rows, n, Expired) then 1 else 0)
            && s.superseded == before.superseded + (if TurnedAt(rows, s.rows, n, Superseded) then 1 else 0)
            && s.reclaimed == before.reclaimed + if LostAt(rows, s.rows, n) then 1 else 0
  {
    hide SweptFiles, Freed, EffectiveOf, Reclaimable;
  }

  /** The numbers reported: how many packages turned expired and superseded, and how many rows lost
      their path. */
  lemma {:induction false} SweepCounts(rows: seq<Pkg>, files: map<string, nat>, env: Env)
    ensures |SweepAll(rows, files, env).rows| == |rows|
    ensures var s := SweepAll(rows, files, env);
            && s.expired == |Turned(rows, s.rows, Expired)| && s.superseded == |Turned(rows, s.rows, Superseded)|
            && s.reclaimed == |Lost(rows, s.rows)|
  {
    if rows != [] {
      hide SweepNext, Turned, Lost, TurnedAt, LostAt;
      var s := SweepAll(rows, files, env);
      SweepCounts(rows[..|rows| - 1], files, env);
      SweepStep(rows, files, env);
      TurnedMore(rows, s.rows, Expired);
      TurnedMore(rows, s.rows, Superseded);
      LostMore(rows, s.rows);
    }
  }

  // ---- the cap ----

  /** Time only takes packages out of the active ones. */
  lemma {:induction false} ActiveFalls(rows: seq<Pkg>, inc: string, now: int, later: int, current: string)
    requires now <= later
    ensures ActiveCount(rows, inc, later, current) <= ActiveCount(rows, inc, now, current)
  {
    hide IsStale;
    if rows != [] { ActiveFalls(rows[..|rows| - 1], inc, now, later, current); }
  }

  lemma {:induction false} ActiveSettled(rows: seq<Pkg>, inc: string, now: int, current: string, i: nat, q: Pkg)
    requires i < |rows| && q.incident == rows[i].incident && q.status != Generated
    ensures ActiveCount(rows[i := q], inc, now, current) <= ActiveCount(rows, inc, now, current)
  {
    hide EffectiveOf;
    var n := |rows| - 1;
    if i < n {
      assert rows[i := q][..n] == rows[..n][i := q];
      ActiveSettled(rows[..n], inc, now, current, i, q);
    } else {
      assert rows[i := q][..n] == rows[..n];
    }
  }

  /** Requests one after another: a generate (refused at the cap), or the end of a package by a
      download, a delete or an ingest; a sweep goes before every generate and may come alone. */
  datatype Op =
    | Generate(at: int, id: string, incident: string, expires: Option<int>, size: nat)
    | End(at: int, i: nat, status: Status)
    | Clean(at: int)

  datatype Depot = Depot(rows: seq<Pkg>, files: map<string, nat>, clock: int)

  /** One request under fixed settings; the clock does not go back. */
  function Do(d: Depot, op: Op, current: string, removable: string -> bool, cap: nat): Depot {
    if op.at < d.clock then d
    else
      match op
      case Generate(at, id, inc, expires, size) =>
        var s := SweepAll(d.rows, d.files, Env(at, current, removable));
        if ActiveCount(s.rows, inc, at, current) >= cap then Depot(s.rows, s.files, at)
        else Depot(s.rows + [Pkg(id, inc, Generated, expires, Some(current), true)], s.files[id := size], at)
      case End(at, i, status) =>
        if i < |d.rows| && status != Generated
        then Depot(d.rows[i := d.rows[i].(status := status, path := d.rows[i].path && status == Ingested)], d.files, at)
        else Depot(d.rows, d.files, at)
      case Clean(at) =>
        var s := SweepAll(d.rows, d.files, Env(at, current, removable));
        Depot(s.rows, s.files, at)
  }

  function DoAll(d: Depot, ops: seq<Op>, current: string, removable: string -> bool, cap: nat): Depot {
    if ops == [] then d
    else Do(DoAll(d, ops[..|ops| - 1], current, removable, cap), ops[|ops| - 1], current, removable, cap)
  }

  ghost predicate WithinCap(d: Depot, current: string, cap: nat) {
    forall inc :: ActiveCount(d.rows, inc, d.clock, current) <= cap
  }

  lemma ActiveSnoc(rows: seq<Pkg>, p: Pkg, inc: string, now: int, current: string)
    ensures ActiveCount(rows + [p], inc, now, current) <= ActiveCount(rows, inc, now, current) + 1
    ensures p.incident != inc ==> ActiveCount(rows + [p], inc, now, current) == ActiveCount(rows, inc, now, current)
  {
    hide EffectiveOf;
    assert (rows + [p])[..|rows|] == rows;
  }

  lemma DoKeepsCap(d: Depot, op: Op, current: string, removable: string -> bool, cap: nat)
    requires WithinCap(d, current, cap)
    ensures WithinCap(Do(d, op, current, removable, cap), current, cap)
  {
    hide ActiveCount, SweepAll;
    if op.at >= d.clock {
      forall inc ensures ActiveCount(Do(d, op, current, removable, cap).rows, inc, op.at, current) <= cap {
        ActiveFalls(d.rows, inc, d.clock, op.at, current);
        SweepKeepsActive(d.rows, d.files, Env(op.at, current, removable), inc);
        match op
        case Generate(at, id, i, expires, _) =>
          ActiveSnoc(SweepAll(d.rows, d.files, Env(at, current, removable)).rows,
                     Pkg(id, i, Generated, expires, Some(current), true),
                     inc, at, current);
        case End(at, i, status) =>
          if i < |d.rows| && status != Generated {
            ActiveSettled(d.rows, inc, at, current, i,
                          d.rows[i].(status := status, path := d.rows[i].path && status == Ingested));
          }
        case Clean(_) =>
      }
    }
  }

  lemma {:induction false} CountWithinCap(d: Depot, ops: seq<Op>, current: string, removable: string -> bool,
                                         cap: nat)
    requires WithinCap(d, current, cap)
    ensures WithinCap(DoAll(d, ops, current, removable, cap), current, cap)
  {
    hide WithinCap, Do;
    if ops != [] {
      CountWithinCap(d, ops[..|ops| - 1], current, removable, cap);
      DoKeepsCap(DoAll(d, ops[..|ops| - 1], current, removable, cap), ops[|ops| - 1], current, removable, cap);
    }
  }

  /** No incident has more active packages than the cap. */
  ghost predicate CapKept(d: Depot, current: string, cap: nat) {
    forall inc :: |ActiveAt(d.rows, inc, d.clock, current)| <= cap
  }

  /** One request at a time, under fixed settings: no incident ever has more active packages than the cap. */
  lemma CapHolds(d: Depot, ops: seq<Op>, current: string, removable: string -> bool, cap: nat)
    requires CapKept(d, current, cap)
    ensures CapKept(DoAll(d, ops, current, removable, cap), current, cap)
  {
    hide ActiveAt, ActiveCount, DoAll;
    var v := DoAll(d, ops, current, removable, cap);
    forall inc ensures ActiveCount(d.rows, inc, d.clock, current) <= cap {
      ActiveCountIs(d.rows, inc, d.clock, current);
    }
    CountWithinCap(d, ops, current, removable, cap);
    forall inc ensures |ActiveAt(v.rows, inc, v.clock, current)| <= cap {
      ActiveCountIs(v.rows, inc, v.clock, current);
    }
  }

  /** A generate in its turn is refused exactly when its incident has as many active packages as the cap
      allows; else the table gains the new package, active until its token runs out, with its file.
      Either way the table is swept first. */
  lemma GenerateExact(d: Depot, at: int, id: string, inc: string, expires: Option<int>, size: nat, current: string,
                      removable: string -> bool, cap: nat)
    requires d.clock <= at
    ensures var v := Do(d, Generate(at, id, inc, expires, size), current, removable, cap);
            var s := SweepAll(d.rows, d.files, Env(at, current, removable));
            && v.clock == at
            && (|ActiveAt(d.rows, inc, at, current)| >= cap ==> v.rows == s.rows && v.files == s.files)
            && (|ActiveAt(d.rows, inc, at, current)| < cap ==>
                  && |v.rows| == |s.rows| + 1 && v.rows[..|s.rows|] == s.rows
                  && var p := v.rows[|s.rows|];
                     && p.id == id && p.path && id in v.files && v.files[id] == size
                     && v.files - {id} == s.files - {id}
                     && forall now :: Active(p, inc, now, current) <==> (expires.Some? ==> now < expires.value))
  {
    hide ActiveAt, ActiveCount, SweepAll;
    ActiveCountIs(d.rows, inc, at, current);
    SweepKeepsActive(d.rows, d.files, Env(at, current, removable), inc);
  }

  /** The sweep of one package among racing requests, undisturbed, does to it what the sweep of the
      whole table does to its row. */
  lemma SweepAloneAgrees(p: Pkg, files: map<string, nat>, env: Env, s: Package, r: nat)
    requires r !in s.requests && s.holder == None && s.row == Row(p.status, p.path) && s.file == (p.id in files)
    ensures var t := Alone(s, Terms(p.expires, IsStale(p, env.current)), r, CollectionRaces.Sweep, env.now,
                          Disk(true, env.removable(p.id)));
            var q := SweptRow(p, files, env);
            t.row == Row(q.status, q.path) && t.file == (p.id in SweptFiles(p, files, env))
  {
    hide IsStale, Effective;
  }
}
