/** The artifact quarantine: rows, files, and the one-artifact migration from plaintext to
    ciphertext (backend/artifacts/encrypt_quarantine.py, backend/artifacts/store.py). */
module QuarantineStore {
  import opened Octets
  import opened Optional

  type Bytes = seq<Byte>

  /** Incident and file name below the quarantine root. */
  datatype Path = Path(incident: string, name: string)

  /** A file as it is: plain bytes, a whole container, or anything that does not decrypt. */
  datatype File = Plain(data: Bytes) | Enc(nonce: string, data: Bytes) | Corrupt

  /** A row of artifacts: `nonce` (nonce_hex) decides how the file is read. */
  datatype Row = Row(incident: string, name: string, nonce: Option<string>, size: nat, sha256: string)

  /** The committed table, the directory, and the artifact_encrypted_at_rest audit rows by artifact. */
  datatype Store = Store(files: map<Path, File>, rows: map<string, Row>, audits: multiset<string>)

  function At(row: Row): Path { Path(row.incident, row.name) }

  /** The container a plaintext row is migrated to. */
  function Target(row: Row): Path { Path(row.incident, row.name + ".enc") }

  predicate Named(rows: map<string, Row>, p: Path) { exists id :: id in rows && At(rows[id]) == p }

  /** iter_plaintext, to its end: the row decides the format, and the size is checked. */
  function Read(files: map<Path, File>, row: Row): Option<Bytes> {
    if At(row) !in files then None
    else match files[At(row)]
      case Plain(d) => if row.nonce == None && |d| == row.size then Some(d) else None
      case Enc(n, d) => if row.nonce == Some(n) && |d| == row.size then Some(d) else None
      case Corrupt => None
  }

  /** The row reads back to its recorded hash. */
  predicate Readable(sha: Bytes -> string, files: map<Path, File>, row: Row) {
    Read(files, row).Some? && sha(Read(files, row).value) == row.sha256
  }

  /** The row after the switch: the new name and the container's nonce. */
  function Encrypted(row: Row, nonce: string): Row { row.(name := row.name + ".enc", nonce := Some(nonce)) }

  datatype Outcome = EncryptedNow | WouldEncrypt | Already | FileMissing | HashMismatch | SizeMismatch
                   | VerifyFailed | TargetNamed | PlaintextLeft
                   | LeftoverRemoved | LeftoverWouldRemove | LeftoverKept

  /** What the disk makes of a write and of the last unlink. */
  datatype Disk = Disk(write: (string, Bytes) -> File, unlinkWorks: bool)

  ghost predicate Healthy(disk: Disk) { disk.unlinkWorks && forall n, d :: disk.write(n, d) == Enc(n, d) }

  function Remove(st: Store, p: Path): Store { st.(files := st.files - {p}) }

  function Switch(st: Store, id: string, nonce: string): Store
    requires id in st.rows
  {
    st.(rows := st.rows[id := Encrypted(st.rows[id], nonce)], audits := st.audits + multiset{id})
  }

  /** The bytes of the plaintext file, when they are the recorded ones. */
  predicate Intact(sha: Bytes -> string, files: map<Path, File>, row: Row) {
    row.nonce.None? && Readable(sha, files, row)
  }

  /** Why a present plaintext file is refused; raw container bytes count as other bytes. */
  function Refusal(files: map<Path, File>, row: Row): Outcome
    requires At(row) in files
  {
    if files[At(row)].Plain? && |files[At(row)].data| != row.size then SizeMismatch else HashMismatch
  }

  /** migrate_one without --apply. */
  function DryRun(sha: Bytes -> string, st: Store, id: string): Outcome {
    if id !in st.rows || st.rows[id].nonce.Some? then Already
    else if At(st.rows[id]) !in st.files then FileMissing
    else if Intact(sha, st.files, st.rows[id]) then WouldEncrypt
    else Refusal(st.files, st.rows[id])
  }

  /** migrate_one with --apply, run to its end. */
  function Migrate(sha: Bytes -> string, st: Store, id: string, nonce: string, disk: Disk): (Store, Outcome) {
    if id !in st.rows || st.rows[id].nonce.Some? then (st, Already)
    else if At(st.rows[id]) !in st.files then (st, FileMissing)
    else if Target(st.rows[id]) in st.files && Named(st.rows, Target(st.rows[id])) then (st, TargetNamed)
    else
      var row := st.rows[id];
      var cleared := Remove(st, Target(row));
      if !Intact(sha, cleared.files, row) then (cleared, Refusal(cleared.files, row))
      else
        var placed := cleared.(files := cleared.files[Target(row) := disk.write(nonce, cleared.files[At(row)].data)]);
        if !Readable(sha, placed.files, Encrypted(row, nonce)) then (cleared, VerifyFailed)
        else if disk.unlinkWorks then (Remove(Switch(placed, id, nonce), At(row)), EncryptedNow)
        else (Switch(placed, id, nonce), PlaintextLeft)
  }

  predicate EndsInEnc(name: string) { |name| >= 4 && name[|name| - 4..] == ".enc" }

  /** The plaintext file a crash may have left beside an encrypted row's container. */
  function LeftoverOf(row: Row): Path
    requires EndsInEnc(row.name)
  {
    Path(row.incident, row.name[..|row.name| - 4])
  }

  /** An old file beside a row's container that no row names. */
  predicate HasLeftover(st: Store, id: string) {
    && id in st.rows && st.rows[id].nonce.Some? && EndsInEnc(st.rows[id].name)
    && LeftoverOf(st.rows[id]) in st.files && !Named(st.rows, LeftoverOf(st.rows[id]))
  }

  /** One row of leftovers(): the old file goes once the container verifies. */
  function CleanLeftover(sha: Bytes -> string, st: Store, id: string): Store {
    if HasLeftover(st, id) && Readable(sha, st.files, st.rows[id]) then Remove(st, LeftoverOf(st.rows[id])) else st
  }

  /** What is counted for it. */
  function LeftoverCount(sha: Bytes -> string, st: Store, id: string, apply: bool): multiset<Outcome> {
    if !HasLeftover(st, id) then multiset{}
    else if !Readable(sha, st.files, st.rows[id]) then multiset{LeftoverKept}
    else multiset{if apply then LeftoverRemoved else LeftoverWouldRemove}
  }

  // ---- a whole run ----

  function MigrateAll(sha: Bytes -> string, st: Store, plain: seq<string>, nonces: string -> string,
      disk: Disk): Store {
    if plain == [] then st
    else
      var n := |plain| - 1;
      Migrate(sha, MigrateAll(sha, st, plain[..n], nonces, disk), plain[n], nonces(plain[n]), disk).0
  }

  function MigrateCounts(sha: Bytes -> string, st: Store, plain: seq<string>, nonces: string -> string, disk: Disk,
                         apply: bool): multiset<Outcome> {
    if plain == [] then multiset{}
    else
      var n := |plain| - 1;
      MigrateCounts(sha, st, plain[..n], nonces, disk, apply) + multiset{
        if apply then Migrate(sha, MigrateAll(sha, st, plain[..n], nonces, disk), plain[n], nonces(plain[n]), disk).1
        else DryRun(sha, st, plain[n])}
  }

  function CleanAll(sha: Bytes -> string, st: Store, ids: seq<string>): Store {
    if ids == [] then st else var n := |ids| - 1; CleanLeftover(sha, CleanAll(sha, st, ids[..n]), ids[n])
  }

  function CleanCounts(sha: Bytes -> string, st: Store, ids: seq<string>, apply: bool): multiset<Outcome> {
    if ids == [] then multiset{}
    else
      var n := |ids| - 1;
      CleanCounts(sha, st, ids[..n], apply)
      + LeftoverCount(sha, if apply then CleanAll(sha, st, ids[..n]) else st, ids[n], apply)
  }

  /** The rows that are plaintext when the run begins, in the order listed. */
  function PlainIds(st: Store, ids: seq<string>): seq<string> {
    if ids == [] then []
    else
      var n := |ids| - 1;
      PlainIds(st, ids[..n]) + if ids[n] in st.rows && st.rows[ids[n]].nonce.None? then [ids[n]] else []
  }

  /** main_async with --apply: every plaintext row, then the leftovers. */
  function ApplyRun(sha: Bytes -> string, st: Store, ids: seq<string>, nonces: string -> string, disk: Disk): Store {
    CleanAll(sha, MigrateAll(sha, st, PlainIds(st, ids), nonces, disk), ids)
  }

  /** The counters the run prints. */
  function RunCounts(sha: Bytes -> string, st: Store, ids: seq<string>, nonces: string -> string, disk: Disk,
                     apply: bool): multiset<Outcome> {
    var plain := PlainIds(st, ids);
    MigrateCounts(sha, st, plain, nonces, disk, apply)
    + CleanCounts(sha, if apply then MigrateAll(sha, st, plain, nonces, disk) else st, ids, apply)
  }

  /** The outcomes that make the exit code 1. */
  predicate Bad(o: Outcome) {
    o in {FileMissing, HashMismatch, SizeMismatch, VerifyFailed, TargetNamed, PlaintextLeft, LeftoverKept}
  }

  function ExitCode(counts: multiset<Outcome>): nat { if exists o :: o in counts && Bad(o) then 1 else 0 }

  /** The quarantine as the tool changes it. */
  class Quarantine {
    var files: map<Path, File>
    var rows: map<string, Row>
    var audits: multiset<string>

    constructor (st: Store)
      ensures Contents() == st
    {
      files, rows, audits := st.files, st.rows, st.audits;
    }

    function Contents(): Store
      reads this
    {
      Store(files, rows, audits)
    }

    method MigrateOne(sha: Bytes -> string, id: string, apply: bool, nonce: string, disk: Disk) returns (o: Outcome)
      modifies this
      ensures !apply ==> Contents() == old(Contents()) && o == DryRun(sha, old(Contents()), id)
      ensures apply ==> (Contents(), o) == Migrate(sha, old(Contents()), id, nonce, disk)
    {
      if id !in rows || rows[id].nonce.Some? { return Already; }
      var a := rows[id];
      var src := At(a);
      if src !in files { return FileMissing; }
      if !apply {
        if Intact(sha, files, a) { return WouldEncrypt; }
        return Refusal(files, a);
      }
      var target := Target(a);
      assert target != src by { assert |target.name| != |src.name|; }
      if target in files {
        if Named(rows, target) { return TargetNamed; }
        files := files - {target};
      } else {
        assert files - {target} == files;
      }
      if !Intact(sha, files, a) { return Refusal(files, a); }
      ghost var cleared := files;
      files := files[target := disk.write(nonce, files[src].data)];
      if !Readable(sha, files, Encrypted(a, nonce)) {
        files := files - {target};
        assert files == cleared;
        return VerifyFailed;
      }
      rows := rows[id := Encrypted(a, nonce)];
      audits := audits + multiset{id};
      if !disk.unlinkWorks { return PlaintextLeft; }
      files := files - {src};
      return EncryptedNow;
    }

    method Leftovers(sha: Bytes -> string, ids: seq<string>, apply: bool) returns (out: multiset<Outcome>)
      modifies this
      ensures Contents() == if apply then CleanAll(sha, old(Contents()), ids) else old(Contents())
      ensures out == CleanCounts(sha, old(Contents()), ids, apply)
    {
      out := multiset{};
      for i := 0 to |ids|
        invariant Contents() == if apply then CleanAll(sha, old(Contents()), ids[..i]) else old(Contents())
        invariant out == CleanCounts(sha, old(Contents()), ids[..i], apply)
      {
        assert ids[..i + 1][..i] == ids[..i];
        var id := ids[i];
        if id in rows && rows[id].nonce.Some? && EndsInEnc(rows[id].name) {
          var a := rows[id];
          var p := LeftoverOf(a);
          if p in files && !Named(rows, p) {
            if !Readable(sha, files, a) {
              out := out + multiset{LeftoverKept};
            } else if apply {
              files := files - {p};
              out := out + multiset{LeftoverRemoved};
            } else {
              out := out + multiset{LeftoverWouldRemove};
            }
          }
        }
      }
      assert ids[..|ids|] == ids;
    }

    /** main_async over the rows listed in `ids`: the counters it prints and its exit code. */
    method Run(sha: Bytes -> string, ids: seq<string>, apply: bool, nonces: string -> string, disk: Disk)
      returns (counts: multiset<Outcome>, exit: nat)
      modifies this
      ensures Contents() == if apply then ApplyRun(sha, old(Contents()), ids, nonces, disk) else old(Contents())
      ensures counts == RunCounts(sha, old(Contents()), ids, nonces, disk, apply)
      ensures exit == ExitCode(counts)
    {
      hide Migrate, DryRun, CleanAll, CleanCounts, PlainIds, ExitCode;
      var plain := Plaintext(ids);
      counts := multiset{};
      for i := 0 to |plain|
        invariant Contents() == if apply then MigrateAll(sha, old(Contents()), plain[..i], nonces, disk)
            else old(Contents())
        invariant counts == MigrateCounts(sha, old(Contents()), plain[..i], nonces, disk, apply)
      {
        assert plain[..i + 1][..i] == plain[..i];
        var o := MigrateOne(sha, plain[i], apply, nonces(plain[i]), disk);
        counts := counts + multiset{o};
      }
      assert plain[..|plain|] == plain;
      var more := Leftovers(sha, ids, apply);
      counts := counts + more;
      exit := ExitCode(counts);
    }

    /** The rows listed that are plaintext now. */
    method Plaintext(ids: seq<string>) returns (plain: seq<string>)
      ensures plain == PlainIds(Contents(), ids)
    {
      plain := [];
      for i := 0 to |ids|
        invariant plain == PlainIds(Contents(), ids[..i])
      {
        assert ids[..i + 1][..i] == ids[..i];
        if ids[i] in rows && rows[ids[i]].nonce.None? { plain := plain + [ids[i]]; }
      }
      assert ids[..|ids|] == ids;
    }
  }
}
