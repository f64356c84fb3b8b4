/** What an uninterrupted --apply run achieves from any store a crash may have left. */
module QuarantineRun {
  import opened Optional
  import opened QuarantineStore

  /** Stored names begin with the id of their own artifact (36 characters of UUID text, no dot):
      `<id>.enc`, or the older `<id>_<name>` and `<id>_<name>.enc`. */
  predicate Owned(id: string, name: string) { |id| == 36 && '.' !in id && id <= name }

  ghost predicate OwnedRows(rows: map<string, Row>) { forall id :: id in rows ==> Owned(id, rows[id].name) }

  /** The path holds the same in both directories. */
  predicate SameAt(f: map<Path, File>, g: map<Path, File>, p: Path) {
    (p in f <==> p in g) && (p in f ==> f[p] == g[p])
  }

  /** The two stores agree on everything that belongs to one artifact. */
  ghost predicate Agree(s: Store, t: Store, id: string) {
    && (id in s.rows <==> id in t.rows) && (id in s.rows ==> s.rows[id] == t.rows[id])
    && s.audits[id] == t.audits[id]
    && forall p: Path :: Owned(id, p.name) ==> SameAt(s.files, t.files, p)
  }

  lemma OneOwner(a: string, b: string, name: string)
    requires Owned(a, name) && Owned(b, name)
    ensures a == b
  {
    assert a == name[..36] && b == name[..36];
  }

  /** With owned names no row names another artifact's target or its own. */
  lemma TargetFree(rows: map<string, Row>, id: string)
    requires OwnedRows(rows) && id in rows
    ensures !Named(rows, Target(rows[id])) && Target(rows[id]) != At(rows[id])
    ensures Owned(id, At(rows[id]).name) && Owned(id, Target(rows[id]).name)
  {
    var p := Target(rows[id]);
    assert |p.name| == |rows[id].name| + 4;
    assert id == rows[id].name[..36] == p.name[..36];
    forall other | other in rows && At(rows[other]) == p ensures false { OneOwner(id, other, p.name); }
  }

  /** Nor does any row name the plaintext file beside a container. */
  lemma LeftoverFree(rows: map<string, Row>, id: string)
    requires OwnedRows(rows) && id in rows && EndsInEnc(rows[id].name)
    ensures !Named(rows, LeftoverOf(rows[id])) && LeftoverOf(rows[id]) != At(rows[id])
    ensures Owned(id, At(rows[id]).name) && Owned(id, LeftoverOf(rows[id]).name)
  {
    var name, p := rows[id].name, LeftoverOf(rows[id]);
    assert name[|name| - 4] == name[|name| - 4..][0] == '.';
    forall k | 0 <= k < 36 ensures name[k] != '.' { assert id[k] == name[k]; }
    assert id == name[..36] == p.name[..36];
    forall other | other in rows && At(rows[other]) == p ensures false { OneOwner(id, other, p.name); }
  }

  // ---- one artifact ----

  lemma MigrateKeepsOwned(sha: Bytes -> string, s: Store, id: string, nonce: string, disk: Disk)
    requires OwnedRows(s.rows)
    ensures OwnedRows(Migrate(sha, s, id, nonce, disk).0.rows)
    ensures Migrate(sha, s, id, nonce, disk).0.rows.Keys == s.rows.Keys
  {
    hide Readable, Intact, Named, Refusal;
    if id in s.rows { TargetFree(s.rows, id); }
  }

  /** Migrating one artifact touches only the files of its row and target. */
  lemma MigrateTouches(sha: Bytes -> string, s: Store, id: string, nonce: string, disk: Disk, p: Path)
    requires id in s.rows ==> p != At(s.rows[id]) && p != Target(s.rows[id])
    ensures SameAt(s.files, Migrate(sha, s, id, nonce, disk).0.files, p)
  {
    hide Readable, Intact, Named, Refusal;
  }

  /** So it touches nothing of another. */
  lemma MigrateFrame(sha: Bytes -> string, s: Store, id: string, nonce: string, disk: Disk, other: string)
    requires OwnedRows(s.rows) && other != id
    ensures Agree(s, Migrate(sha, s, id, nonce, disk).0, other)
  {
    var t := Migrate(sha, s, id, nonce, disk).0;
    forall p: Path | Owned(other, p.name) ensures SameAt(s.files, t.files, p) {
      hide Migrate, SameAt;
      if id in s.rows {
        TargetFree(s.rows, id);
        if p == At(s.rows[id]) || p == Target(s.rows[id]) { OneOwner(id, other, p.name); }
      }
      MigrateTouches(sha, s, id, nonce, disk, p);
    }
    hide Readable, Intact, Named, Refusal, SameAt, Owned;
  }

  /** Where an artifact may come to rest: not migratable, no stray target beside a plaintext
      file, no plaintext beside a container that verifies. */
  predicate Settled(sha: Bytes -> string, t: Store, id: string)
    requires id in t.rows
  {
    var row := t.rows[id];
    && !Intact(sha, t.files, row)
    && (row.nonce.None? && At(row) in t.files ==> Target(row) !in t.files)
    && (row.nonce.Some? && EndsInEnc(row.name) && Readable(sha, t.files, row) ==> LeftoverOf(row) !in t.files)
  }

  /** What the run owes an artifact: an intact plaintext row ends encrypted under its own nonce,
      readable, its plaintext file gone, with one more audit row; any other row is as it was, as
      readable as it was, and not migratable. */
  ghost predicate Done(sha: Bytes -> string, s: Store, t: Store, id: string, nonce: string)
    requires id in s.rows
  {
    var row := s.rows[id];
    && id in t.rows
    && (Intact(sha, s.files, row) ==>
          && t.rows[id] == Encrypted(row, nonce) && Readable(sha, t.files, t.rows[id])
          && At(row) !in t.files && t.audits[id] == s.audits[id] + 1)
    && (!Intact(sha, s.files, row) ==>
          && t.rows[id] == row && t.audits[id] == s.audits[id] && !Intact(sha, t.files, row)
          && (Readable(sha, s.files, row) <==> Readable(sha, t.files, row))
          && (row.nonce.None? && At(row) in t.files ==> Target(row) !in t.files))
  }

  /** The target name is in use: a file lies there and a row names it. */
  predicate TargetTaken(s: Store, row: Row) { Target(row) in s.files && Named(s.rows, Target(row)) }

  /** The container the disk makes of the plaintext reads back as the recorded bytes. */
  predicate WritesBack(sha: Bytes -> string, s: Store, id: string, nonce: string, disk: Disk) {
    && id in s.rows && At(s.rows[id]) in s.files && s.files[At(s.rows[id])].Plain?
    && var f := disk.write(nonce, s.files[At(s.rows[id])].data);
       f.Enc? && f.nonce == nonce && |f.data| == s.rows[id].size && sha(f.data) == s.rows[id].sha256
  }

  /** For every disk, and whatever the names are: which outcome a row has, each with its own cause. */
  lemma MigrateExact(sha: Bytes -> string, s: Store, id: string, nonce: string, disk: Disk)
    requires id in s.rows
    ensures var row, o := s.rows[id], Migrate(sha, s, id, nonce, disk).1;
            var goes := Intact(sha, s.files, row) && !TargetTaken(s, row);
            && (o == EncryptedNow <==> goes && WritesBack(sha, s, id, nonce, disk) && disk.unlinkWorks)
            && (o == PlaintextLeft <==> goes && WritesBack(sha, s, id, nonce, disk) && !disk.unlinkWorks)
            && (o == VerifyFailed <==> goes && !WritesBack(sha, s, id, nonce, disk))
            && (o == Already <==> row.nonce.Some?)
            && (o == FileMissing <==> row.nonce.None? && At(row) !in s.files)
            && (o == TargetNamed <==> row.nonce.None? && At(row) in s.files && TargetTaken(s, row))
            && (o == SizeMismatch <==> row.nonce.None? && At(row) in s.files && !TargetTaken(s, row)
                                       && s.files[At(row)].Plain? && |s.files[At(row)].data| != row.size)
            && (o == HashMismatch <==> row.nonce.None? && At(row) in s.files && !TargetTaken(s, row)
                                       && (s.files[At(row)].Plain? ==> |s.files[At(row)].data| == row.size
                                                                       && sha(s.files[At(row)].data) != row.sha256))
            && o !in {WouldEncrypt, LeftoverRemoved, LeftoverWouldRemove, LeftoverKept}
  {
    hide Named;
    var row := s.rows[id];
    assert Target(row) != At(row) by { assert |Target(row).name| > |row.name|; }
  }

  /** And what the outcome says of the store: only a switched row is changed and audited, and only its
      plaintext goes, if it could be removed; whatever else went wrong, nothing but an old file at the
      target name is gone. */
  lemma MigrateLeaves(sha: Bytes -> string, s: Store, id: string, nonce: string, disk: Disk)
    requires id in s.rows
    ensures var row, (t, o) := s.rows[id], Migrate(sha, s, id, nonce, disk);
            if o in {EncryptedNow, PlaintextLeft} then
              && t.rows == s.rows[id := Encrypted(row, nonce)] && t.audits == s.audits + multiset{id}
              && At(row) in s.files && s.files[At(row)].Plain?
              && t.files == s.files[Target(row) := disk.write(nonce, s.files[At(row)].data)]
                            - (if o == EncryptedNow then {At(row)} else {})
            else
              && t.rows == s.rows && t.audits == s.audits
              && t.files == s.files - (if o in {VerifyFailed, SizeMismatch, HashMismatch} then {Target(row)} else {})
  {
    hide Named, Refusal;
    var row := s.rows[id];
    assert Target(row) != At(row) by { assert |Target(row).name| > |row.name|; }
    if At(row) in s.files && !TargetTaken(s, row) && row.nonce.None? { RefusalIs(s.files - {Target(row)}, row); }
  }

  lemma RefusalIs(files: map<Path, File>, row: Row)
    requires At(row) in files
    ensures Refusal(files, row) in {SizeMismatch, HashMismatch}
  {}

  lemma MigrateEffect(sha: Bytes -> string, s: Store, id: string, nonce: string, disk: Disk)
    requires OwnedRows(s.rows) && Healthy(disk) && id in s.rows
    ensures Done(sha, s, Migrate(sha, s, id, nonce, disk).0, id, nonce)
  {
    TargetFree(s.rows, id);
    hide Named, Owned, OwnedRows, Refusal;
    assert forall n, d :: disk.write(n, d) == Enc(n, d);
  }

  lemma DoneStays(sha: Bytes -> string, s: Store, t: Store, u: Store, id: string, nonce: string)
    requires OwnedRows(s.rows) && id in s.rows && Done(sha, s, t, id, nonce) && Agree(t, u, id)
    ensures Done(sha, s, u, id, nonce)
  {
    TargetFree(s.rows, id);
    assert SameAt(t.files, u.files, At(s.rows[id])) && SameAt(t.files, u.files, Target(s.rows[id]));
  }

  /** A row the run has not reached yet fares as it would have from the start. */
  lemma DoneLater(sha: Bytes -> string, s: Store, t: Store, u: Store, id: string, nonce: string)
    requires OwnedRows(s.rows) && id in s.rows && Agree(s, t, id) && Done(sha, t, u, id, nonce)
    ensures Done(sha, s, u, id, nonce)
  {
    TargetFree(s.rows, id);
    assert SameAt(s.files, t.files, At(s.rows[id]));
  }

  lemma AgreeTrans(s: Store, t: Store, u: Store, id: string)
    requires Agree(s, t, id) && Agree(t, u, id)
    ensures Agree(s, u, id)
  {
    forall p: Path | Owned(id, p.name) ensures SameAt(s.files, u.files, p) {
      assert SameAt(s.files, t.files, p) && SameAt(t.files, u.files, p);
    }
  }

  // ---- every plaintext row ----

  predicate Distinct(ids: seq<string>) { forall i, j :: 0 <= i < j < |ids| ==> ids[i] != ids[j] }

  lemma {:induction false} MigrateAllKeepsOwned(sha: Bytes -> string, s: Store, ids: seq<string>,
                                               nonces: string -> string, disk: Disk)
    requires OwnedRows(s.rows)
    ensures OwnedRows(MigrateAll(sha, s, ids, nonces, disk).rows)
    ensures MigrateAll(sha, s, ids, nonces, disk).rows.Keys == s.rows.Keys
  {
    hide Migrate, OwnedRows;
    if ids != [] {
      var n := |ids| - 1;
      MigrateAllKeepsOwned(sha, s, ids[..n], nonces, disk);
      MigrateKeepsOwned(sha, MigrateAll(sha, s, ids[..n], nonces, disk), ids[n], nonces(ids[n]), disk);
    }
  }

  lemma {:induction false} MigrateAllFrame(sha: Bytes -> string, s: Store, ids: seq<string>,
                                          nonces: string -> string, disk: Disk, other: string)
    requires OwnedRows(s.rows) && other !in ids
    ensures Agree(s, MigrateAll(sha, s, ids, nonces, disk), other)
  {
    if ids != [] {
      hide Migrate, OwnedRows, Agree;
      var n := |ids| - 1;
      var t := MigrateAll(sha, s, ids[..n], nonces, disk);
      assert ids[n] in ids;
      MigrateAllKeepsOwned(sha, s, ids[..n], nonces, disk);
      MigrateAllFrame(sha, s, ids[..n], nonces, disk, other);
      MigrateFrame(sha, t, ids[n], nonces(ids[n]), disk, other);
      AgreeTrans(s, t, MigrateAll(sha, s, ids, nonces, disk), other);
    }
  }

  lemma {:induction false} MigrateAllDone(sha: Bytes -> string, s: Store, ids: seq<string>,
                                         nonces: string -> string, disk: Disk, k: nat)
    requires OwnedRows(s.rows) && Healthy(disk) && Distinct(ids) && k < |ids| && ids[k] in s.rows
    ensures Done(sha, s, MigrateAll(sha, s, ids, nonces, disk), ids[k], nonces(ids[k]))
    decreases |ids|
  {
    hide Migrate, OwnedRows, Agree, Done, Healthy;
    var n, id := |ids| - 1, ids[k];
    var t, u := MigrateAll(sha, s, ids[..n], nonces, disk), MigrateAll(sha, s, ids, nonces, disk);
    MigrateAllKeepsOwned(sha, s, ids[..n], nonces, disk);
    if k == n {
      MigrateAllFrame(sha, s, ids[..n], nonces, disk, id);
      MigrateEffect(sha, t, id, nonces(id), disk);
      DoneLater(sha, s, t, u, id, nonces(id));
    } else {
      MigrateAllDone(sha, s, ids[..n], nonces, disk, k);
      MigrateFrame(sha, t, ids[n], nonces(ids[n]), disk, id);
      DoneStays(sha, s, t, u, id, nonces(id));
    }
  }

  // ---- the leftovers ----

  lemma CleanTouches(sha: Bytes -> string, s: Store, id: string, p: Path)
    requires id in s.rows && EndsInEnc(s.rows[id].name) ==> p != LeftoverOf(s.rows[id])
    ensures SameAt(s.files, CleanLeftover(sha, s, id).files, p)
  {
    hide Readable, Named;
  }

  lemma CleanFrame(sha: Bytes -> string, s: Store, id: string, other: string)
    requires OwnedRows(s.rows) && other != id
    ensures Agree(s, CleanLeftover(sha, s, id), other)
  {
    var t := CleanLeftover(sha, s, id);
    forall p: Path | Owned(other, p.name) ensures SameAt(s.files, t.files, p) {
      hide CleanLeftover, SameAt;
      if id in s.rows && EndsInEnc(s.rows[id].name) {
        LeftoverFree(s.rows, id);
        if p == LeftoverOf(s.rows[id]) { OneOwner(id, other, p.name); }
      }
      CleanTouches(sha, s, id, p);
    }
    hide Readable, Named, SameAt, Owned;
  }

  /** Cleaning keeps what migrating achieved, and settles the artifact. */
  lemma CleanSettles(sha: Bytes -> string, s: Store, t: Store, id: string, nonce: string)
    requires OwnedRows(s.rows) && OwnedRows(t.rows) && id in s.rows && Done(sha, s, t, id, nonce)
    ensures Done(sha, s, CleanLeftover(sha, t, id), id, nonce)
    ensures Settled(sha, CleanLeftover(sha, t, id), id)
  {
    if EndsInEnc(t.rows[id].name) { LeftoverFree(t.rows, id); }
    hide Named, Owned, OwnedRows;
  }

  lemma SettledStays(sha: Bytes -> string, t: Store, u: Store, id: string)
    requires OwnedRows(t.rows) && id in t.rows && Agree(t, u, id)
    ensures Settled(sha, t, id) <==> Settled(sha, u, id)
  {
    TargetFree(t.rows, id);
    assert SameAt(t.files, u.files, At(t.rows[id])) && SameAt(t.files, u.files, Target(t.rows[id]));
    if EndsInEnc(t.rows[id].name) {
      LeftoverFree(t.rows, id);
      assert SameAt(t.files, u.files, LeftoverOf(t.rows[id]));
    }
    hide Named, Owned, OwnedRows;
  }

  lemma {:induction false} CleanAllKeepsRows(sha: Bytes -> string, s: Store, ids: seq<string>)
    ensures CleanAll(sha, s, ids).rows == s.rows
  {
    if ids != [] { CleanAllKeepsRows(sha, s, ids[..|ids| - 1]); }
  }

  lemma {:induction false} CleanAllFrame(sha: Bytes -> string, s: Store, ids: seq<string>, other: string)
    requires OwnedRows(s.rows) && other !in ids
    ensures Agree(s, CleanAll(sha, s, ids), other)
  {
    if ids != [] {
      hide CleanLeftover, OwnedRows, Agree;
      var n := |ids| - 1;
      var t := CleanAll(sha, s, ids[..n]);
      assert ids[n] in ids;
      CleanAllKeepsRows(sha, s, ids[..n]);
      CleanAllFrame(sha, s, ids[..n], other);
      CleanFrame(sha, t, ids[n], other);
      AgreeTrans(s, t, CleanAll(sha, s, ids), other);
    }
  }

  lemma {:induction false} CleanAllSettles(sha: Bytes -> string, s: Store, t: Store, ids: seq<string>, k: nat,
      nonce: string)
    requires OwnedRows(s.rows) && OwnedRows(t.rows) && Distinct(ids) && k < |ids| && ids[k] in s.rows
    requires Done(sha, s, t, ids[k], nonce)
    ensures Done(sha, s, CleanAll(sha, t, ids), ids[k], nonce)
    ensures Settled(sha, CleanAll(sha, t, ids), ids[k])
    decreases |ids|
  {
    hide CleanLeftover, OwnedRows, Agree, Settled;
    var n, id := |ids| - 1, ids[k];
    var u := CleanAll(sha, t, ids[..n]);
    CleanAllKeepsRows(sha, t, ids[..n]);
    if k == n {
      CleanAllFrame(sha, t, ids[..n], id);
      DoneStays(sha, s, t, u, id, nonce);
      CleanSettles(sha, s, u, id, nonce);
    } else {
      CleanAllSettles(sha, s, t, ids[..n], k, nonce);
      CleanFrame(sha, u, ids[n], id);
      DoneStays(sha, s, u, CleanAll(sha, t, ids), id, nonce);
      SettledStays(sha, u, CleanAll(sha, t, ids), id);
    }
  }

  // ---- the whole run ----

  /** A row that is encrypted, or gone, when the run begins stays as it is. */
  lemma {:induction false} EncryptedStays(sha: Bytes -> string, s: Store, plain: seq<string>,
                                         nonces: string -> string, disk: Disk, id: string)
    requires id !in s.rows || s.rows[id].nonce.Some?
    ensures var m := MigrateAll(sha, s, plain, nonces, disk);
            (id in m.rows <==> id in s.rows) && (id in s.rows ==> m.rows[id] == s.rows[id])
  {
    hide Named, Readable, Intact;
    if plain != [] { EncryptedStays(sha, s, plain[..|plain| - 1], nonces, disk, id); }
  }

  lemma MigrateNothing(sha: Bytes -> string, s: Store, id: string, nonce: string, disk: Disk)
    requires id !in s.rows || s.rows[id].nonce.Some?
    ensures Migrate(sha, s, id, nonce, disk).0 == s
  {
  }

  /** Going over the rows that were plaintext is going over all of them. */
  lemma {:induction false} OnlyPlaintext(sha: Bytes -> string, s: Store, ids: seq<string>,
                                        nonces: string -> string, disk: Disk)
    ensures MigrateAll(sha, s, PlainIds(s, ids), nonces, disk) == MigrateAll(sha, s, ids, nonces, disk)
  {
    hide Migrate;
    if ids != [] {
      var n := |ids| - 1;
      var before := PlainIds(s, ids[..n]);
      OnlyPlaintext(sha, s, ids[..n], nonces, disk);
      if ids[n] in s.rows && s.rows[ids[n]].nonce.None? {
        assert (before + [ids[n]])[..|before|] == before;
      } else {
        EncryptedStays(sha, s, ids[..n], nonces, disk, ids[n]);
        MigrateNothing(sha, MigrateAll(sha, s, ids[..n], nonces, disk), ids[n], nonces(ids[n]), disk);
        assert before + [] == before;
      }
    }
  }

  /** The listing names every row once. */
  ghost predicate Lists(ids: seq<string>, rows: map<string, Row>) {
    Distinct(ids) && forall id :: id in ids <==> id in rows
  }

  ghost predicate AllSettled(sha: Bytes -> string, t: Store) { forall id :: id in t.rows ==> Settled(sha, t, id) }

  /** From any store with owned names, whatever files a crash left: after one --apply run on a
      healthy disk every artifact is done and settled, and no other row or audit row exists. */
  lemma ApplyRunCompletes(sha: Bytes -> string, s: Store, ids: seq<string>, nonces: string -> string, disk: Disk)
    requires OwnedRows(s.rows) && Healthy(disk) && Lists(ids, s.rows)
    ensures var t := ApplyRun(sha, s, ids, nonces, disk);
            && t.rows.Keys == s.rows.Keys
            && (forall id :: id in s.rows ==> Done(sha, s, t, id, nonces(id)))
            && (forall id :: id !in s.rows ==> t.audits[id] == s.audits[id])
            && AllSettled(sha, t)
  {
    hide Migrate, CleanLeftover, OwnedRows, Agree, Done, Settled, Healthy, PlainIds;
    var m, t := MigrateAll(sha, s, ids, nonces, disk), ApplyRun(sha, s, ids, nonces, disk);
    OnlyPlaintext(sha, s, ids, nonces, disk);
    MigrateAllKeepsOwned(sha, s, ids, nonces, disk);
    CleanAllKeepsRows(sha, m, ids);
    forall id | id in s.rows ensures Done(sha, s, t, id, nonces(id)) && Settled(sha, t, id) {
      var k :| 0 <= k < |ids| && ids[k] == id;
      MigrateAllDone(sha, s, ids, nonces, disk, k);
      CleanAllSettles(sha, s, m, ids, k, nonces(id));
    }
    forall id | id !in s.rows ensures t.audits[id] == s.audits[id] {
      MigrateAllFrame(sha, s, ids, nonces, disk, id);
      CleanAllFrame(sha, m, ids, id);
      AgreeAudits(s, m, id);
      AgreeAudits(m, t, id);
    }
  }

  lemma AgreeAudits(s: Store, t: Store, id: string)
    requires Agree(s, t, id)
    ensures s.audits[id] == t.audits[id]
  {
  }

  lemma SettledStopsMigrate(sha: Bytes -> string, t: Store, id: string, nonce: string, disk: Disk)
    requires id in t.rows ==> Settled(sha, t, id)
    ensures Migrate(sha, t, id, nonce, disk).0 == t
  {
    hide Named, Refusal, Readable;
    if id in t.rows && Target(t.rows[id]) !in t.files {
      assert Target(t.rows[id]) != At(t.rows[id]) by { assert |Target(t.rows[id]).name| > |t.rows[id].name|; }
      assert Remove(t, Target(t.rows[id])) == t;
    }
  }

  /** A run over a settled store changes nothing, whatever the disk does. */
  lemma {:induction false} SettledStopsRun(sha: Bytes -> string, t: Store, ids: seq<string>,
                                          nonces: string -> string, disk: Disk)
    requires AllSettled(sha, t)
    ensures MigrateAll(sha, t, ids, nonces, disk) == t && CleanAll(sha, t, ids) == t
  {
    if ids != [] {
      hide Migrate, Intact, Readable, Named;
      var n := |ids| - 1;
      SettledStopsRun(sha, t, ids[..n], nonces, disk);
      SettledStopsMigrate(sha, t, ids[n], nonces(ids[n]), disk);
    }
  }

  /** The second run changes nothing. */
  lemma SecondRunIdle(sha: Bytes -> string, s: Store, ids: seq<string>, nonces: string -> string, disk: Disk,
                      again: seq<string>, nonces2: string -> string, disk2: Disk)
    requires OwnedRows(s.rows) && Healthy(disk) && Lists(ids, s.rows)
    ensures var t := ApplyRun(sha, s, ids, nonces, disk);
            ApplyRun(sha, t, again, nonces2, disk2) == t
  {
    hide AllSettled, MigrateAll, CleanAll, OwnedRows, Healthy, Lists, Done;
    ApplyRunCompletes(sha, s, ids, nonces, disk);
    var t := ApplyRun(sha, s, ids, nonces, disk);
    SettledStopsRun(sha, t, PlainIds(t, again), nonces2, disk2);
    SettledStopsRun(sha, t, again, nonces2, disk2);
  }

  /** Files that belong to no row are never touched. */
  lemma {:induction false} StrangersUntouched(sha: Bytes -> string, s: Store, ids: seq<string>,
                                             nonces: string -> string, disk: Disk, p: Path)
    requires OwnedRows(s.rows) && forall id :: id in s.rows ==> !Owned(id, p.name)
    ensures SameAt(s.files, MigrateAll(sha, s, ids, nonces, disk).files, p)
    ensures SameAt(s.files, CleanAll(sha, s, ids).files, p)
  {
    if ids != [] {
      hide Migrate, CleanLeftover, OwnedRows, Owned;
      var n := |ids| - 1;
      var m, c := MigrateAll(sha, s, ids[..n], nonces, disk), CleanAll(sha, s, ids[..n]);
      StrangersUntouched(sha, s, ids[..n], nonces, disk, p);
      MigrateAllKeepsOwned(sha, s, ids[..n], nonces, disk);
      CleanAllKeepsRows(sha, s, ids[..n]);
      if ids[n] in s.rows {
        TargetFree(m.rows, ids[n]);
        if EndsInEnc(c.rows[ids[n]].name) { LeftoverFree(c.rows, ids[n]); }
      }
      MigrateTouches(sha, m, ids[n], nonces(ids[n]), disk, p);
      CleanTouches(sha, c, ids[n], p);
    }
  }

  // ---- the dry run ----

  /** What --apply will answer, read off the dry run's answer. */
  function Applied(o: Outcome): Outcome { if o == WouldEncrypt then EncryptedNow else o }

  /** The answer to one row depends only on what belongs to the row. */
  lemma AnswerLocal(sha: Bytes -> string, s: Store, t: Store, id: string, nonce: string, disk: Disk)
    requires OwnedRows(s.rows) && OwnedRows(t.rows) && Agree(s, t, id)
    ensures Migrate(sha, t, id, nonce, disk).1 == Migrate(sha, s, id, nonce, disk).1
  {
    hide Named, Owned, OwnedRows;
    if id in s.rows {
      TargetFree(s.rows, id);
      TargetFree(t.rows, id);
      assert SameAt(s.files, t.files, At(s.rows[id])) && SameAt(s.files, t.files, Target(s.rows[id]));
    }
  }

  lemma DryRunPredictsOne(sha: Bytes -> string, s: Store, id: string, nonce: string, disk: Disk)
    requires OwnedRows(s.rows) && Healthy(disk)
    ensures Migrate(sha, s, id, nonce, disk).1 == Applied(DryRun(sha, s, id))
  {
    if id in s.rows { TargetFree(s.rows, id); }
    hide Named, Owned, OwnedRows;
    assert forall n, d :: disk.write(n, d) == Enc(n, d);
  }

  /** On a healthy disk the dry run reports, row by row, exactly what a following --apply run
      answers when it reaches that row. */
  lemma DryRunPredicts(sha: Bytes -> string, s: Store, ids: seq<string>, nonces: string -> string, disk: Disk, k: nat)
    requires OwnedRows(s.rows) && Healthy(disk) && Distinct(ids) && k < |ids|
    ensures Migrate(sha, MigrateAll(sha, s, ids[..k], nonces, disk), ids[k], nonces(ids[k]), disk).1
         == Applied(DryRun(sha, s, ids[k]))
  {
    hide Migrate, OwnedRows, Agree, Healthy, DryRun;
    MigrateAllKeepsOwned(sha, s, ids[..k], nonces, disk);
    MigrateAllFrame(sha, s, ids[..k], nonces, disk, ids[k]);
    AnswerLocal(sha, s, MigrateAll(sha, s, ids[..k], nonces, disk), ids[k], nonces(ids[k]), disk);
    DryRunPredictsOne(sha, s, ids[k], nonces(ids[k]), disk);
  }

  // ---- the exit code ----

  ghost predicate AnyBad(counts: multiset<Outcome>) { exists o :: o in counts && Bad(o) }

  lemma AnyBadSum(a: multiset<Outcome>, b: multiset<Outcome>)
    ensures AnyBad(a + b) <==> AnyBad(a) || AnyBad(b)
  {
    hide Bad;
    if o :| o in a && Bad(o) { assert o in a + b; }
    if o :| o in b && Bad(o) { assert o in a + b; }
  }

  lemma AnyBadOne(o: Outcome)
    ensures AnyBad(multiset{o}) <==> Bad(o)
  {
    assert o in multiset{o};
  }

  /** The answer a row has on its own. */
  function Answer(sha: Bytes -> string, s: Store, id: string, nonce: string, disk: Disk, apply: bool): Outcome {
    if apply then Migrate(sha, s, id, nonce, disk).1 else DryRun(sha, s, id)
  }

  ghost predicate SomeBadRow(sha: Bytes -> string, s: Store, plain: seq<string>, nonces: string -> string,
                             disk: Disk, apply: bool) {
    exists k :: 0 <= k < |plain| && Bad(Answer(sha, s, plain[k], nonces(plain[k]), disk, apply))
  }

  lemma SomeBadSnoc(sha: Bytes -> string, s: Store, plain: seq<string>, nonces: string -> string, disk: Disk,
                    apply: bool)
    requires plain != []
    ensures var n := |plain| - 1;
            SomeBadRow(sha, s, plain, nonces, disk, apply) <==>
              SomeBadRow(sha, s, plain[..n], nonces, disk, apply)
              || Bad(Answer(sha, s, plain[n], nonces(plain[n]), disk, apply))
  {
    hide Answer, Bad;
    var n := |plain| - 1;
    if k :| 0 <= k < n && Bad(Answer(sha, s, plain[..n][k], nonces(plain[..n][k]), disk, apply)) {
      assert Bad(Answer(sha, s, plain[k], nonces(plain[k]), disk, apply));
    }
    if k :| 0 <= k < |plain| && Bad(Answer(sha, s, plain[k], nonces(plain[k]), disk, apply)) && k < n {
      assert plain[..n][k] == plain[k];
    }
  }

  /** A run counts a bad row exactly when some row's own answer is bad. */
  lemma {:induction false} MigrateCountsBad(sha: Bytes -> string, s: Store, plain: seq<string>,
                                           nonces: string -> string, disk: Disk, apply: bool)
    requires OwnedRows(s.rows) && Distinct(plain)
    ensures AnyBad(MigrateCounts(sha, s, plain, nonces, disk, apply)) <==>
              SomeBadRow(sha, s, plain, nonces, disk, apply)
  {
    hide Migrate, MigrateAll, DryRun, OwnedRows, Bad, AnyBad, Agree, SomeBadRow;
    if plain == [] {
      NoneBad();
      NoRowBad(sha, s, nonces, disk, apply);
    } else {
      var n := |plain| - 1;
      var u := MigrateAll(sha, s, plain[..n], nonces, disk);
      MigrateCountsBad(sha, s, plain[..n], nonces, disk, apply);
      MigrateAllKeepsOwned(sha, s, plain[..n], nonces, disk);
      MigrateAllFrame(sha, s, plain[..n], nonces, disk, plain[n]);
      AnswerLocal(sha, s, u, plain[n], nonces(plain[n]), disk);
      SomeBadSnoc(sha, s, plain, nonces, disk, apply);
      var o := Answer(sha, s, plain[n], nonces(plain[n]), disk, apply);
      AnyBadOne(o);
      AnyBadSum(MigrateCounts(sha, s, plain[..n], nonces, disk, apply), multiset{o});
    }
  }

  lemma NoRowBad(sha: Bytes -> string, s: Store, nonces: string -> string, disk: Disk, apply: bool)
    ensures !SomeBadRow(sha, s, [], nonces, disk, apply)
  {
  }

  lemma NoneBad()
    ensures !AnyBad(multiset{})
  {
  }

  /** A leftover whose container does not verify. */
  predicate KeepsLeftover(sha: Bytes -> string, s: Store, id: string) {
    HasLeftover(s, id) && !Readable(sha, s.files, s.rows[id])
  }

  ghost predicate SomeKept(sha: Bytes -> string, s: Store, ids: seq<string>) {
    exists k :: 0 <= k < |ids| && KeepsLeftover(sha, s, ids[k])
  }

  lemma SomeKeptSnoc(sha: Bytes -> string, s: Store, ids: seq<string>)
    requires ids != []
    ensures SomeKept(sha, s, ids) <==> SomeKept(sha, s, ids[..|ids| - 1]) || KeepsLeftover(sha, s, ids[|ids| - 1])
  {
    hide KeepsLeftover;
    var n := |ids| - 1;
    if k :| 0 <= k < n && KeepsLeftover(sha, s, ids[..n][k]) { assert KeepsLeftover(sha, s, ids[k]); }
    if k :| 0 <= k < |ids| && KeepsLeftover(sha, s, ids[k]) && k < n { assert ids[..n][k] == ids[k]; }
  }

  lemma LeftoverLocal(sha: Bytes -> string, s: Store, t: Store, id: string)
    requires OwnedRows(s.rows) && OwnedRows(t.rows) && Agree(s, t, id)
    ensures HasLeftover(s, id) <==> HasLeftover(t, id)
    ensures HasLeftover(s, id) ==> (Readable(sha, s.files, s.rows[id]) <==> Readable(sha, t.files, t.rows[id]))
  {
    if id in s.rows && EndsInEnc(s.rows[id].name) {
      LeftoverFree(s.rows, id);
      LeftoverFree(t.rows, id);
      assert SameAt(s.files, t.files, At(s.rows[id])) && SameAt(s.files, t.files, LeftoverOf(s.rows[id]));
    }
    hide Named, Owned, OwnedRows;
  }

  lemma KeepsLocal(sha: Bytes -> string, s: Store, t: Store, id: string)
    requires OwnedRows(s.rows) && OwnedRows(t.rows) && Agree(s, t, id)
    ensures KeepsLeftover(sha, s, id) <==> KeepsLeftover(sha, t, id)
  {
    hide HasLeftover, Readable, OwnedRows, Agree;
    LeftoverLocal(sha, s, t, id);
  }

  lemma LeftoverBad(sha: Bytes -> string, s: Store, id: string, apply: bool)
    ensures AnyBad(LeftoverCount(sha, s, id, apply)) <==> KeepsLeftover(sha, s, id)
  {
    hide HasLeftover, Readable;
    NoneBad();
    AnyBadOne(LeftoverKept);
    AnyBadOne(if apply then LeftoverRemoved else LeftoverWouldRemove);
  }

  lemma {:induction false} CleanCountsBad(sha: Bytes -> string, s: Store, ids: seq<string>, apply: bool)
    requires OwnedRows(s.rows) && Distinct(ids)
    ensures AnyBad(CleanCounts(sha, s, ids, apply)) <==> SomeKept(sha, s, ids)
  {
    hide CleanAll, LeftoverCount, OwnedRows, AnyBad, KeepsLeftover, Agree;
    if ids == [] {
      NoneBad();
    } else {
      var n := |ids| - 1;
      CleanCountsBad(sha, s, ids[..n], apply);
      var u := if apply then CleanAll(sha, s, ids[..n]) else s;
      CleanAllKeepsRows(sha, s, ids[..n]);
      CleanAllFrame(sha, s, ids[..n], ids[n]);
      if apply { KeepsLocal(sha, s, u, ids[n]); }
      LeftoverBad(sha, u, ids[n], apply);
      SomeKeptSnoc(sha, s, ids);
      AnyBadSum(CleanCounts(sha, s, ids[..n], apply), LeftoverCount(sha, u, ids[n], apply));
    }
  }

  /** Nothing to complain of: every plaintext row is intact and, in a real run, its container is written
      as it should and its plaintext removed; every leftover lies beside a container that verifies. */
  ghost predicate AllClear(sha: Bytes -> string, s: Store, nonces: string -> string, disk: Disk, apply: bool) {
    forall id :: id in s.rows ==> RowClear(sha, s, id, nonces(id), disk, apply)
  }

  predicate RowClear(sha: Bytes -> string, s: Store, id: string, nonce: string, disk: Disk, apply: bool)
    requires id in s.rows
  {
    && (s.rows[id].nonce.None? ==>
          Intact(sha, s.files, s.rows[id]) && (apply ==> WritesBack(sha, s, id, nonce, disk) && disk.unlinkWorks))
    && !KeepsLeftover(sha, s, id)
  }

  lemma {:induction false} PlainIdsAre(s: Store, ids: seq<string>)
    requires Distinct(ids)
    ensures Distinct(PlainIds(s, ids))
    ensures forall id :: id in PlainIds(s, ids) <==> id in ids && id in s.rows && s.rows[id].nonce.None?
  {
    if ids != [] {
      PlainIdsAre(s, ids[..|ids| - 1]);
      assert ids == ids[..|ids| - 1] + [ids[|ids| - 1]];
    }
  }

  lemma PlainRowBad(sha: Bytes -> string, s: Store, id: string, nonce: string, disk: Disk, apply: bool)
    requires OwnedRows(s.rows) && id in s.rows && s.rows[id].nonce.None?
    ensures Bad(Answer(sha, s, id, nonce, disk, apply)) <==>
              !(Intact(sha, s.files, s.rows[id]) && (apply ==> WritesBack(sha, s, id, nonce, disk) && disk.unlinkWorks))
  {
    hide Readable, Migrate, WritesBack, Named, Refusal;
    TargetFree(s.rows, id);
    if apply { MigrateExact(sha, s, id, nonce, disk); }
    if At(s.rows[id]) in s.files { RefusalIs(s.files, s.rows[id]); }
    else { MissingNotIntact(sha, s.files, s.rows[id]); }
  }

  lemma MissingNotIntact(sha: Bytes -> string, files: map<Path, File>, row: Row)
    requires At(row) !in files
    ensures !Intact(sha, files, row)
  {
  }

  /** Whatever came of a plaintext row, it keeps no leftover that does not verify. */
  lemma MigratedKeepsNone(sha: Bytes -> string, s: Store, id: string, nonce: string, disk: Disk)
    requires id in s.rows && s.rows[id].nonce.None?
    ensures !KeepsLeftover(sha, s, id) && !KeepsLeftover(sha, Migrate(sha, s, id, nonce, disk).0, id)
  {
    hide Named, EndsInEnc;
    assert Target(s.rows[id]) != At(s.rows[id]) by { assert |Target(s.rows[id]).name| > |s.rows[id].name|; }
  }

  lemma {:induction false} PlainKeepsNone(sha: Bytes -> string, s: Store, plain: seq<string>,
                                         nonces: string -> string, disk: Disk, k: nat)
    requires OwnedRows(s.rows) && Distinct(plain) && k < |plain|
    requires plain[k] in s.rows && s.rows[plain[k]].nonce.None?
    ensures !KeepsLeftover(sha, MigrateAll(sha, s, plain, nonces, disk), plain[k])
    decreases |plain|
  {
    hide Migrate, OwnedRows, KeepsLeftover, SameAt;
    var n, id := |plain| - 1, plain[k];
    var u := MigrateAll(sha, s, plain[..n], nonces, disk);
    MigrateAllKeepsOwned(sha, s, plain[..n], nonces, disk);
    if k == n {
      MigrateAllFrame(sha, s, plain[..n], nonces, disk, id);
      MigratedKeepsNone(sha, u, id, nonces(id), disk);
    } else {
      PlainKeepsNone(sha, s, plain[..n], nonces, disk, k);
      MigrateFrame(sha, u, plain[n], nonces(plain[n]), disk, id);
      MigrateKeepsOwned(sha, u, plain[n], nonces(plain[n]), disk);
      KeepsLocal(sha, u, MigrateAll(sha, s, plain, nonces, disk), id);
    }
  }

  /** After the migrations the same leftovers are kept as before. */
  lemma KeptAfterMigrating(sha: Bytes -> string, s: Store, ids: seq<string>, nonces: string -> string, disk: Disk,
      id: string)
    requires OwnedRows(s.rows) && Lists(ids, s.rows) && id in s.rows
    ensures KeepsLeftover(sha, MigrateAll(sha, s, PlainIds(s, ids), nonces, disk), id) <==> KeepsLeftover(sha, s, id)
  {
    hide Migrate, OwnedRows, Agree, PlainIds, MigrateAll, KeepsLeftover;
    var plain := PlainIds(s, ids);
    PlainIdsAre(s, ids);
    MigrateAllKeepsOwned(sha, s, plain, nonces, disk);
    if id in plain {
      var k :| 0 <= k < |plain| && plain[k] == id;
      PlainKeepsNone(sha, s, plain, nonces, disk, k);
      MigratedKeepsNone(sha, s, id, nonces(id), disk);
    } else {
      MigrateAllFrame(sha, s, plain, nonces, disk, id);
      KeepsLocal(sha, s, MigrateAll(sha, s, plain, nonces, disk), id);
    }
  }

  lemma ExitIs(counts: multiset<Outcome>)
    ensures ExitCode(counts) == 0 <==> !AnyBad(counts)
  {
  }

  /** Whatever the disk does, the exit code is 0 exactly when there was nothing to complain of. */
  lemma ExitTells(sha: Bytes -> string, s: Store, ids: seq<string>, nonces: string -> string, disk: Disk, apply: bool)
    requires OwnedRows(s.rows) && Lists(ids, s.rows)
    ensures ExitCode(RunCounts(sha, s, ids, nonces, disk, apply)) == 0 <==> AllClear(sha, s, nonces, disk, apply)
  {
    hide Migrate, OwnedRows, Agree, Readable, Intact, PlainIds, MigrateAll, MigrateCounts, CleanCounts, AnyBad,
         ExitCode, Answer, Bad, KeepsLeftover, WritesBack;
    var plain := PlainIds(s, ids);
    var m := if apply then MigrateAll(sha, s, plain, nonces, disk) else s;
    PlainIdsAre(s, ids);
    MigrateAllKeepsOwned(sha, s, plain, nonces, disk);
    ExitIs(RunCounts(sha, s, ids, nonces, disk, apply));
    AnyBadSum(MigrateCounts(sha, s, plain, nonces, disk, apply), CleanCounts(sha, m, ids, apply));
    MigrateCountsBad(sha, s, plain, nonces, disk, apply);
    CleanCountsBad(sha, m, ids, apply);
    forall id | id in s.rows
      ensures KeepsLeftover(sha, m, id) <==> KeepsLeftover(sha, s, id)
      ensures s.rows[id].nonce.None? ==> (Bad(Answer(sha, s, id, nonces(id), disk, apply)) <==>
                !(Intact(sha, s.files, s.rows[id])
                  && (apply ==> WritesBack(sha, s, id, nonces(id), disk) && disk.unlinkWorks)))
    {
      KeptAfterMigrating(sha, s, ids, nonces, disk, id);
      if s.rows[id].nonce.None? { PlainRowBad(sha, s, id, nonces(id), disk, apply); }
    }
    ClearIs(sha, s, m, ids, plain, nonces, disk, apply);
  }

  lemma ClearIs(sha: Bytes -> string, s: Store, m: Store, ids: seq<string>, plain: seq<string>,
                nonces: string -> string, disk: Disk, apply: bool)
    requires Lists(ids, s.rows)
    requires forall id :: id in plain <==> id in ids && id in s.rows && s.rows[id].nonce.None?
    requires forall id :: id in s.rows ==> (KeepsLeftover(sha, m, id) <==> KeepsLeftover(sha, s, id))
    requires forall id :: id in s.rows && s.rows[id].nonce.None? ==>
               (Bad(Answer(sha, s, id, nonces(id), disk, apply)) <==>
                 !(Intact(sha, s.files, s.rows[id])
                   && (apply ==> WritesBack(sha, s, id, nonces(id), disk) && disk.unlinkWorks)))
    ensures !SomeBadRow(sha, s, plain, nonces, disk, apply) && !SomeKept(sha, m, ids) <==>
              AllClear(sha, s, nonces, disk, apply)
  {
    hide KeepsLeftover, Bad, Answer, Intact, WritesBack;
    if !SomeBadRow(sha, s, plain, nonces, disk, apply) && !SomeKept(sha, m, ids) {
      forall id | id in s.rows ensures RowClear(sha, s, id, nonces(id), disk, apply) {
        var k :| 0 <= k < |ids| && ids[k] == id;
        assert !KeepsLeftover(sha, m, ids[k]);
        if s.rows[id].nonce.None? {
          var j :| 0 <= j < |plain| && plain[j] == id;
          assert !Bad(Answer(sha, s, plain[j], nonces(plain[j]), disk, apply));
        }
      }
    }
    if AllClear(sha, s, nonces, disk, apply) {
      forall k | 0 <= k < |plain| ensures !Bad(Answer(sha, s, plain[k], nonces(plain[k]), disk, apply)) {
        assert plain[k] in plain;
        assert RowClear(sha, s, plain[k], nonces(plain[k]), disk, apply);
      }
      forall k | 0 <= k < |ids| ensures !KeepsLeftover(sha, m, ids[k]) {
        assert ids[k] in ids;
        assert RowClear(sha, s, ids[k], nonces(ids[k]), disk, apply);
      }
    }
  }

  // ---- the counters ----

  lemma SwitchesOne(sha: Bytes -> string, s: Store, id: string, nonce: string, disk: Disk)
    ensures var (t, o) := Migrate(sha, s, id, nonce, disk);
            |t.audits| == |s.audits| + if o in {EncryptedNow, PlaintextLeft} then 1 else 0
  {
    if id in s.rows { MigrateLeaves(sha, s, id, nonce, disk); }
    hide Named, Readable, Intact, Refusal;
  }

  /** On every disk and for any names: each plaintext row is counted once, and as many audit rows are
      written as rows were encrypted, with or without their plaintext left. */
  lemma {:induction false} CountsTell(sha: Bytes -> string, s: Store, plain: seq<string>,
                                     nonces: string -> string, disk: Disk)
    ensures |MigrateCounts(sha, s, plain, nonces, disk, true)| == |plain|
    ensures |MigrateCounts(sha, s, plain, nonces, disk, false)| == |plain|
    ensures var counts := MigrateCounts(sha, s, plain, nonces, disk, true);
            |MigrateAll(sha, s, plain, nonces, disk).audits|
            == |s.audits| + counts[EncryptedNow] + counts[PlaintextLeft]
  {
    hide Migrate, DryRun;
    if plain != [] {
      var n := |plain| - 1;
      CountsTell(sha, s, plain[..n], nonces, disk);
      SwitchesOne(sha, MigrateAll(sha, s, plain[..n], nonces, disk), plain[n], nonces(plain[n]), disk);
    }
  }

  /** A real sweep counts exactly the files that go; a dry one counts what a real one would remove. */
  lemma {:induction false} LeftoversTell(sha: Bytes -> string, s: Store, ids: seq<string>)
    requires OwnedRows(s.rows) && Distinct(ids)
    ensures CleanCounts(sha, s, ids, true)[LeftoverRemoved] + |CleanAll(sha, s, ids).files| == |s.files|
    ensures CleanCounts(sha, s, ids, false)[LeftoverWouldRemove] == CleanCounts(sha, s, ids, true)[LeftoverRemoved]
    ensures CleanCounts(sha, s, ids, false)[LeftoverKept] == CleanCounts(sha, s, ids, true)[LeftoverKept]
  {
    hide OwnedRows, HasLeftover, Readable, Agree;
    if ids != [] {
      var n := |ids| - 1;
      var u := CleanAll(sha, s, ids[..n]);
      LeftoversTell(sha, s, ids[..n]);
      CleanAllKeepsRows(sha, s, ids[..n]);
      CleanAllFrame(sha, s, ids[..n], ids[n]);
      LeftoverLocal(sha, s, u, ids[n]);
      if HasLeftover(u, ids[n]) { LeftoverThere(u, ids[n]); }
    }
  }

  lemma LeftoverThere(s: Store, id: string)
    requires HasLeftover(s, id)
    ensures id in s.rows && EndsInEnc(s.rows[id].name) && LeftoverOf(s.rows[id]) in s.files
    ensures |s.files - {LeftoverOf(s.rows[id])}| == |s.files| - 1
  {
    var p := LeftoverOf(s.rows[id]);
    assert s.files == (s.files - {p})[p := s.files[p]];
  }
}
