/** Uploads, deletes and the migration tool interleaved at every file and database effect, with
    crashes anywhere (backend/artifacts/encrypt_quarantine.py, backend/artifacts/routes.py). */
module QuarantineProtocol {
  import opened Optional
  import opened QuarantineStore
  import opened QuarantineRun

  /** Where the migration tool stands. From Locked to Verified it holds the row's lock; in Switched
      the new row is committed; Sweeping works on the rows read when the sweep began. */
  datatype Tool =
    | Off
    | Locked(id: string)
    | Clearing(id: string)
    | Cleared(id: string)
    | Staged(id: string, nonce: string, file: File)
    | Placed(id: string, nonce: string)
    | Rejected(id: string)
    | Verified(id: string, nonce: string)
    | Switched(id: string, src: Path)
    | Sweeping(snap: map<string, Row>)
    | Doomed(snap: map<string, Row>, id: string)

  predicate LocksRow(t: Tool) {
    t.Locked? || t.Clearing? || t.Cleared? || t.Staged? || t.Placed? || t.Rejected? || t.Verified?
  }

  /** The committed store, the ids ever given out, uploads whose row is not committed yet, unlinks
      owed for deleted rows and failed uploads, and the tool. */
  datatype World = World(st: Store, used: set<string>, uploads: map<string, Row>, unlinks: set<(string, Path)>,
      tool: Tool)

  datatype BackendEvent =
    | StartUpload(id: string, row: Row, file: File)
    | CommitUpload(id: string)
    | AbortUpload(id: string)
    | Delete(id: string)
    | Unlink(id: string, path: Path)
    | BackendCrash

  datatype ToolEvent =
    | Lock(id: string)
    | Inspect
    | UnlinkStale
    | Encrypt(nonce: string, file: File)
    | Place
    | Verify
    | Discard
    | SwitchRow
    | Drop
    | StartSweep
    | CheckLeftover(id: string)
    | RemoveLeftover
    | ToolStops

  datatype Event = Backend(b: BackendEvent) | OfTool(t: ToolEvent)

  function Without(w: World, p: Path, tool: Tool): World { w.(st := Remove(w.st, p), tool := tool) }

  /** One effect of the backend; an event that is not possible changes nothing. */
  function BackendStep(w: World, e: BackendEvent): World {
    match e
    case StartUpload(id, row, file) =>
      if |id| == 36 && '.' !in id && id !in w.used && row.name == id + ".enc" && row.nonce.Some?
      then w.(st := w.st.(files := w.st.files[At(row) := file]), used := w.used + {id}, uploads := w.uploads[id := row])
      else w
    case CommitUpload(id) =>
      if id in w.uploads
      then w.(st := w.st.(rows := w.st.rows[id := w.uploads[id]]), uploads := w.uploads - {id})
      else w
    case AbortUpload(id) =>
      if id in w.uploads
      then w.(uploads := w.uploads - {id}, unlinks := w.unlinks + {(id, At(w.uploads[id]))})
      else w
    case Delete(id) =>
      if id in w.st.rows && !(LocksRow(w.tool) && w.tool.id == id)
      then w.(st := w.st.(rows := w.st.rows - {id}), unlinks := w.unlinks + {(id, At(w.st.rows[id]))})
      else w
    case Unlink(id, path) =>
      if (id, path) in w.unlinks
      then w.(st := Remove(w.st, path), unlinks := w.unlinks - {(id, path)})
      else w
    case BackendCrash => w.(uploads := map[], unlinks := {})
  }

  /** One effect of the migration tool. */
  function ToolStep(sha: Bytes -> string, w: World, e: ToolEvent): World {
    match e
    case Lock(id) =>
      if w.tool.Off? && id in w.st.rows && w.st.rows[id].nonce.None? && At(w.st.rows[id]) in w.st.files
      then w.(tool := Locked(id)) else w
    case Inspect =>
      if w.tool.Locked? && w.tool.id in w.st.rows
      then
        var target := Target(w.st.rows[w.tool.id]);
        w.(tool := if target !in w.st.files then Cleared(w.tool.id)
                   else if Named(w.st.rows, target) then Off else Clearing(w.tool.id))
      else w
    case UnlinkStale =>
      if w.tool.Clearing? && w.tool.id in w.st.rows
      then Without(w, Target(w.st.rows[w.tool.id]), Cleared(w.tool.id)) else w
    case Encrypt(nonce, file) =>
      if w.tool.Cleared? && w.tool.id in w.st.rows
      then w.(tool := if Intact(sha, w.st.files, w.st.rows[w.tool.id]) then Staged(w.tool.id, nonce, file) else Off)
      else w
    case Place =>
      if w.tool.Staged? && w.tool.id in w.st.rows
      then w.(st := w.st.(files := w.st.files[Target(w.st.rows[w.tool.id]) := w.tool.file]),
              tool := Placed(w.tool.id, w.tool.nonce))
      else w
    case Verify =>
      if w.tool.Placed? && w.tool.id in w.st.rows
      then w.(tool := if Readable(sha, w.st.files, Encrypted(w.st.rows[w.tool.id], w.tool.nonce))
                      then Verified(w.tool.id, w.tool.nonce) else Rejected(w.tool.id))
      else w
    case Discard =>
      if w.tool.Rejected? && w.tool.id in w.st.rows
      then Without(w, Target(w.st.rows[w.tool.id]), Off) else w
    case SwitchRow =>
      if w.tool.Verified? && w.tool.id in w.st.rows
      then w.(st := Switch(w.st, w.tool.id, w.tool.nonce), tool := Switched(w.tool.id, At(w.st.rows[w.tool.id])))
      else w
    case Drop => if w.tool.Switched? then Without(w, w.tool.src, Off) else w
    case StartSweep => if w.tool.Off? then w.(tool := Sweeping(w.st.rows)) else w
    case CheckLeftover(id) =>
      if w.tool.Sweeping? && id in w.tool.snap && w.tool.snap[id].nonce.Some? && EndsInEnc(w.tool.snap[id].name)
         && LeftoverOf(w.tool.snap[id]) in w.st.files && !Named(w.st.rows, LeftoverOf(w.tool.snap[id]))
         && Readable(sha, w.st.files, w.tool.snap[id])
      then w.(tool := Doomed(w.tool.snap, id)) else w
    case RemoveLeftover =>
      if w.tool.Doomed? && w.tool.id in w.tool.snap && EndsInEnc(w.tool.snap[w.tool.id].name)
      then Without(w, LeftoverOf(w.tool.snap[w.tool.id]), Sweeping(w.tool.snap)) else w
    case ToolStops => w.(tool := Off)
  }

  function Step(sha: Bytes -> string, w: World, e: Event): World {
    match e case Backend(b) => BackendStep(w, b) case OfTool(t) => ToolStep(sha, w, t)
  }

  function Run(sha: Bytes -> string, w: World, es: seq<Event>): World {
    if es == [] then w else Step(sha, Run(sha, w, es[..|es| - 1]), es[|es| - 1])
  }

  /** The committed rows and the rows of uploads whose file is already written. */
  function Known(w: World): map<string, Row> { w.uploads + w.st.rows }

  // ---- what every step keeps ----

  /** Every name belongs to one id, and an id owed an unlink or under upload has no row. */
  ghost predicate Names(w: World) {
    && OwnedRows(w.st.rows)
    && (forall id :: id in w.st.rows ==> id in w.used && id !in w.uploads)
    && (forall id :: id in w.uploads ==>
          id in w.used && w.uploads[id].nonce.Some? && Owned(id, w.uploads[id].name))
    && (forall u :: u in w.unlinks ==>
          u.0 in w.used && u.0 !in w.st.rows && u.0 !in w.uploads && Owned(u.0, u.1.name))
    && (forall p, id :: p in w.st.files && Owned(id, p.name) ==> id in w.used)
  }

  /** A plaintext row has no encryption audit row yet, and nothing has more than one. */
  ghost predicate Audits(w: World) {
    && (forall id :: w.st.audits[id] <= 1)
    && (forall id :: id in w.st.rows && w.st.rows[id].nonce.None? ==> w.st.audits[id] == 0)
  }

  /** What the tool relies on while it holds a row. */
  ghost predicate RowKnows(sha: Bytes -> string, w: World) {
    var t := w.tool;
    && (LocksRow(t) ==> t.id in w.st.rows && w.st.rows[t.id].nonce.None?)
    && (t.Cleared? || t.Staged? ==> Target(w.st.rows[t.id]) !in w.st.files)
    && (t.Verified? ==> Readable(sha, w.st.files, Encrypted(w.st.rows[t.id], t.nonce)))
  }

  /** What it relies on where it removes plaintext: the row is gone, or its container verified. */
  ghost predicate SweepKnows(sha: Bytes -> string, w: World) {
    var t := w.tool;
    && (t.Switched? ==>
          && Owned(t.id, t.src.name) && t.id in w.used && t.id !in w.uploads
          && (t.id in w.st.rows ==>
                && w.st.rows[t.id].nonce.Some? && w.st.rows[t.id].incident == t.src.incident
                && w.st.rows[t.id].name == t.src.name + ".enc" && Readable(sha, w.st.files, w.st.rows[t.id])))
    && (t.Sweeping? || t.Doomed? ==> Snapshot(w, t.snap))
    && (t.Doomed? ==>
          && t.id in t.snap && t.snap[t.id].nonce.Some? && EndsInEnc(t.snap[t.id].name)
          && (t.id in w.st.rows ==> Readable(sha, w.st.files, w.st.rows[t.id])))
  }

  ghost predicate ToolKnows(sha: Bytes -> string, w: World) { RowKnows(sha, w) && SweepKnows(sha, w) }

  /** Encrypted rows of an older read are still the same rows, unless deleted. */
  ghost predicate Snapshot(w: World, snap: map<string, Row>) {
    forall id :: id in snap && snap[id].nonce.Some? ==>
      && id in w.used && id !in w.uploads && Owned(id, snap[id].name)
      && (id in w.st.rows ==> w.st.rows[id] == snap[id])
  }

  ghost predicate Inv(sha: Bytes -> string, w: World) { Names(w) && Audits(w) && ToolKnows(sha, w) }

  // ---- one step ----

  /** What becomes of a committed row: it stays as it is, or it is switched, once, with its audit row. */
  ghost predicate Lineage(r: Row, a: nat, r': Row, a': nat) {
    || (r' == r && a' == a)
    || (r.nonce.None? && r'.nonce.Some? && r' == Encrypted(r, r'.nonce.value) && a' == a + 1)
  }

  /** A path may be removed only as the target a plaintext row does not use, or beside a
      container that its committed row names and that verifies, or when its row is gone. */
  ghost predicate MayGo(sha: Bytes -> string, w: World, p: Path) {
    forall id :: id in w.st.rows && Owned(id, p.name) ==>
      || (w.st.rows[id].nonce.None? && p == Target(w.st.rows[id]))
      || (w.st.rows[id].nonce.Some? && At(w.st.rows[id]) == Path(p.incident, p.name + ".enc")
          && Readable(sha, w.st.files, w.st.rows[id]))
  }

  /** Every known row keeps its lineage and, if it could be read, can be read. */
  ghost predicate SafeRows(sha: Bytes -> string, w: World, v: World) {
    forall id :: id in Known(w) && id in Known(v) ==>
      && Lineage(Known(w)[id], w.st.audits[id], Known(v)[id], v.st.audits[id])
      && (Readable(sha, w.st.files, Known(w)[id]) ==> Readable(sha, v.st.files, Known(v)[id]))
  }

  /** No file is overwritten, and only files nobody needs are removed. */
  ghost predicate SafeFiles(sha: Bytes -> string, w: World, v: World) {
    && (forall p :: p in w.st.files && p in v.st.files ==> v.st.files[p] == w.st.files[p])
    && (forall p :: p in w.st.files && p !in v.st.files ==> MayGo(sha, w, p) && !Named(Known(v), p))
  }

  /** A deleted id never comes back, and a committed row never goes back to an upload. */
  ghost predicate SafeIds(w: World, v: World) {
    && (forall id :: id in w.used && id !in Known(w) ==> id !in Known(v))
    && (forall id :: id in w.st.rows ==> id !in v.uploads)
    && w.used <= v.used
  }

  /** The promise of one step, from w to v. */
  ghost predicate Safe(sha: Bytes -> string, w: World, v: World) {
    SafeRows(sha, w, v) && SafeFiles(sha, w, v) && SafeIds(w, v)
  }

  lemma ReadableSame(sha: Bytes -> string, f: map<Path, File>, g: map<Path, File>, row: Row)
    requires SameAt(f, g, At(row))
    ensures Readable(sha, f, row) <==> Readable(sha, g, row)
  {
  }

  /** Removing or adding a file no row of the table names leaves every row as readable as it was. */
  lemma OthersReadable(sha: Bytes -> string, w: World, files: map<Path, File>, p: Path)
    requires !Named(Known(w), p) && forall q :: q != p ==> SameAt(files, w.st.files, q)
    ensures forall id :: id in Known(w) ==>
              (Readable(sha, files, Known(w)[id]) <==> Readable(sha, w.st.files, Known(w)[id]))
  {
    forall id | id in Known(w)
      ensures Readable(sha, files, Known(w)[id]) <==> Readable(sha, w.st.files, Known(w)[id])
    {
      ReadableSame(sha, files, w.st.files, Known(w)[id]);
    }
  }

  lemma UnownedUnnamed(rows: map<string, Row>, id: string, p: Path)
    requires OwnedRows(rows) && id !in rows && Owned(id, p.name)
    ensures !Named(rows, p)
    ensures forall other :: other in rows ==> !Owned(other, p.name)
  {
    forall other | other in rows && Owned(other, p.name) ensures false { OneOwner(id, other, p.name); }
  }

  /** The file of a fresh id lies where no file was, and no row or tool step names it. */
  lemma FreshPath(sha: Bytes -> string, w: World, id: string, row: Row)
    requires Inv(sha, w) && |id| == 36 && '.' !in id && id !in w.used && row.name == id + ".enc"
    ensures At(row) !in w.st.files && !Named(Known(w), At(row)) && Owned(id, row.name)
    ensures forall other :: Owned(other, row.name) ==> other == id
    ensures LocksRow(w.tool) ==> At(row) != Target(w.st.rows[w.tool.id])
  {
    assert row.name[..36] == id;
    UnownedUnnamed(Known(w), id, At(row));
    forall other | Owned(other, row.name) ensures other == id { OneOwner(id, other, row.name); }
    if LocksRow(w.tool) { TargetFree(w.st.rows, w.tool.id); }
  }

  lemma StartUploadNames(sha: Bytes -> string, w: World, id: string, row: Row, file: File)
    requires Inv(sha, w)
    ensures Names(BackendStep(w, StartUpload(id, row, file)))
  {
    hide Readable, Named, Owned, ToolKnows, Audits;
    if BackendStep(w, StartUpload(id, row, file)) != w {
      FreshPath(sha, w, id, row);
    }
  }

  lemma StartUploadSweep(sha: Bytes -> string, w: World, id: string, row: Row, file: File)
    requires Inv(sha, w)
    ensures SweepKnows(sha, BackendStep(w, StartUpload(id, row, file)))
  {
    hide Readable, Named, Owned, OwnedRows, Audits, RowKnows;
    var v := BackendStep(w, StartUpload(id, row, file));
    if v != w {
      FreshPath(sha, w, id, row);
      OthersReadable(sha, w, v.st.files, At(row));
    }
  }

  lemma StartUploadRow(sha: Bytes -> string, w: World, id: string, row: Row, file: File)
    requires Inv(sha, w)
    ensures RowKnows(sha, BackendStep(w, StartUpload(id, row, file)))
  {
    hide Readable, Named, Owned, OwnedRows, Audits, SweepKnows;
    var v := BackendStep(w, StartUpload(id, row, file));
    if v != w {
      FreshPath(sha, w, id, row);
      if w.tool.Verified? { ReadableSame(sha, v.st.files, w.st.files, Encrypted(w.st.rows[w.tool.id], w.tool.nonce)); }
    }
  }

  lemma StartUploadSafe(sha: Bytes -> string, w: World, id: string, row: Row, file: File)
    requires Inv(sha, w)
    ensures Inv(sha, BackendStep(w, StartUpload(id, row, file)))
    ensures Safe(sha, w, BackendStep(w, StartUpload(id, row, file)))
  {
    hide Readable, Named, Owned, RowKnows, SweepKnows, MayGo;
    var v := BackendStep(w, StartUpload(id, row, file));
    StartUploadNames(sha, w, id, row, file);
    StartUploadSweep(sha, w, id, row, file);
    StartUploadRow(sha, w, id, row, file);
    if v != w {
      FreshPath(sha, w, id, row);
      OthersReadable(sha, w, v.st.files, At(row));
      assert forall other :: other in Known(w) ==> other in Known(v) && Known(v)[other] == Known(w)[other];
      assert SafeFiles(sha, w, v) by { hide Names, SafeRows, SafeIds, OwnedRows; }
      assert SafeIds(w, v) by { hide SafeRows, SafeFiles, OwnedRows; }
      assert SafeRows(sha, w, v) by { hide SafeFiles, SafeIds, OwnedRows; }
      hide Names, OwnedRows, SafeRows, SafeFiles, SafeIds;
    }
  }

  lemma UnlinkFree(sha: Bytes -> string, w: World, id: string, path: Path)
    requires Inv(sha, w) && (id, path) in w.unlinks
    ensures !Named(Known(w), path) && MayGo(sha, w, path)
    ensures LocksRow(w.tool) ==> path != Target(w.st.rows[w.tool.id])
  {
    UnownedUnnamed(Known(w), id, path);
    if LocksRow(w.tool) { TargetFree(w.st.rows, w.tool.id); }
    hide Readable, Named;
  }

  lemma UnlinkInv(sha: Bytes -> string, w: World, id: string, path: Path)
    requires Inv(sha, w)
    ensures Inv(sha, BackendStep(w, Unlink(id, path)))
  {
    hide Readable, Named, Owned, OwnedRows, MayGo;
    var v := BackendStep(w, Unlink(id, path));
    if v != w {
      UnlinkFree(sha, w, id, path);
      OthersReadable(sha, w, v.st.files, path);
      if w.tool.Verified? { ReadableSame(sha, v.st.files, w.st.files, Encrypted(w.st.rows[w.tool.id], w.tool.nonce)); }
    }
  }

  lemma UnlinkSafe(sha: Bytes -> string, w: World, id: string, path: Path)
    requires Inv(sha, w)
    ensures Inv(sha, BackendStep(w, Unlink(id, path))) && Safe(sha, w, BackendStep(w, Unlink(id, path)))
  {
    hide Readable, Named, Owned, OwnedRows, MayGo, ToolKnows, Audits;
    var v := BackendStep(w, Unlink(id, path));
    UnlinkInv(sha, w, id, path);
    if v != w {
      UnlinkFree(sha, w, id, path);
      OthersReadable(sha, w, v.st.files, path);
    }
  }

  /** Events that change rows and debts but no file. */
  predicate ChangesBooks(e: BackendEvent) { e.CommitUpload? || e.AbortUpload? || e.Delete? || e.BackendCrash? }

  lemma BooksNames(sha: Bytes -> string, w: World, e: BackendEvent)
    requires Inv(sha, w) && ChangesBooks(e)
    ensures Names(BackendStep(w, e)) && Audits(BackendStep(w, e))
  {
    hide Readable, Owned, Intact, ToolKnows;
  }

  lemma BooksTool(sha: Bytes -> string, w: World, e: BackendEvent)
    requires Inv(sha, w) && ChangesBooks(e)
    ensures ToolKnows(sha, BackendStep(w, e))
  {
    hide Readable, Owned, Intact, Audits, OwnedRows;
  }

  lemma BooksKnown(sha: Bytes -> string, w: World, e: BackendEvent)
    requires Inv(sha, w) && ChangesBooks(e)
    ensures var v := BackendStep(w, e);
            && v.st.files == w.st.files && v.st.audits == w.st.audits && SafeIds(w, v)
            && forall id :: id in Known(v) ==> id in Known(w) && Known(v)[id] == Known(w)[id]
  {
    hide Readable, Owned, Intact, ToolKnows, Audits, OwnedRows;
  }

  lemma BooksSafe(sha: Bytes -> string, w: World, e: BackendEvent)
    requires Inv(sha, w) && ChangesBooks(e)
    ensures Inv(sha, BackendStep(w, e)) && Safe(sha, w, BackendStep(w, e))
    ensures BooksChanged(w, e, BackendStep(w, e))
  {
    hide Readable, Owned, Intact, ToolKnows, Audits, Names, MayGo, BackendStep, SafeIds, Known, BooksChanged;
    BooksNames(sha, w, e);
    BooksTool(sha, w, e);
    BooksKnown(sha, w, e);
    BooksChange(sha, w, e);
  }

  /** What an event of the books makes of rows and uploads: a commit turns the upload into its row, an
      abort forgets it, a delete takes the row unless the tool holds it, a crash takes every upload
      that is not committed. */
  predicate BooksChanged(w: World, e: BackendEvent, v: World) {
    match e
    case CommitUpload(id) =>
      Known(v) == Known(w) && v.uploads.Keys == w.uploads.Keys - {id} && (id in w.uploads ==> id in v.st.rows)
    case AbortUpload(id) => v.st.rows == w.st.rows && v.uploads == w.uploads - {id}
    case Delete(id) =>
      && v.uploads == w.uploads
      && v.st.rows == if LocksRow(w.tool) && w.tool.id == id then w.st.rows else w.st.rows - {id}
    case BackendCrash => v.st.rows == w.st.rows && v.uploads == map[]
    case _ => true
  }

  lemma BooksChange(sha: Bytes -> string, w: World, e: BackendEvent)
    requires Inv(sha, w) && ChangesBooks(e)
    ensures BooksChanged(w, e, BackendStep(w, e))
  {
    hide Readable, Owned, Intact, ToolKnows, Audits, OwnedRows;
    match e
    case CommitUpload(id) => assert id !in w.uploads ==> w.uploads.Keys - {id} == w.uploads.Keys;
    case AbortUpload(id) => assert id !in w.uploads ==> w.uploads - {id} == w.uploads;
    case Delete(id) => assert id !in w.st.rows ==> w.st.rows - {id} == w.st.rows;
    case _ =>
  }

  lemma BackendSafe(sha: Bytes -> string, w: World, e: BackendEvent)
    requires Inv(sha, w)
    ensures Inv(sha, BackendStep(w, e)) && Safe(sha, w, BackendStep(w, e))
  {
    hide Inv, Safe, BackendStep;
    match e
    case StartUpload(id, row, file) => StartUploadSafe(sha, w, id, row, file);
    case Unlink(id, path) => UnlinkSafe(sha, w, id, path);
    case _ => BooksSafe(sha, w, e);
  }

  // ---- the tool's steps ----

  lemma PhaseOnly(sha: Bytes -> string, w: World, tool: Tool)
    requires Inv(sha, w) && ToolKnows(sha, w.(tool := tool))
    ensures Inv(sha, w.(tool := tool)) && Safe(sha, w, w.(tool := tool))
  {
    hide Readable, Owned, Intact, ToolKnows;
  }

  lemma RemoveSafe(sha: Bytes -> string, w: World, p: Path, tool: Tool)
    requires Inv(sha, w) && !Named(Known(w), p) && MayGo(sha, w, p) && ToolKnows(sha, Without(w, p, tool))
    ensures Inv(sha, Without(w, p, tool)) && Safe(sha, w, Without(w, p, tool))
  {
    hide Readable, Owned, Intact, ToolKnows, Named, MayGo;
    OthersReadable(sha, w, Without(w, p, tool).st.files, p);
  }

  /** The only row that owns the path of one owned by `id` is the row of `id`. */
  lemma OwnMayGo(sha: Bytes -> string, w: World, id: string, p: Path)
    requires OwnedRows(Known(w)) && Owned(id, p.name) && id !in w.uploads
    requires id in w.st.rows ==> At(w.st.rows[id]) != p
    requires id in w.st.rows && w.st.rows[id].nonce.None? ==> p == Target(w.st.rows[id])
    requires id in w.st.rows && w.st.rows[id].nonce.Some? ==>
               && At(w.st.rows[id]) == Path(p.incident, p.name + ".enc")
               && Readable(sha, w.st.files, w.st.rows[id])
    ensures MayGo(sha, w, p) && !Named(Known(w), p)
  {
    forall other | other in Known(w) && Owned(other, p.name) ensures other == id { OneOwner(id, other, p.name); }
  }

  lemma LockedTarget(sha: Bytes -> string, w: World)
    requires Inv(sha, w) && LocksRow(w.tool)
    ensures w.tool.id in w.st.rows
    ensures !Named(Known(w), Target(w.st.rows[w.tool.id])) && MayGo(sha, w, Target(w.st.rows[w.tool.id]))
    ensures w.tool.Staged? ==> Target(w.st.rows[w.tool.id]) !in w.st.files
  {
    hide Named, Readable, SweepKnows;
    TargetFree(w.st.rows, w.tool.id);
    OwnMayGo(sha, w, w.tool.id, Target(w.st.rows[w.tool.id]));
  }

  lemma TargetStepSafe(sha: Bytes -> string, w: World, e: ToolEvent)
    requires Inv(sha, w) && (e.UnlinkStale? || e.Discard?)
    ensures Inv(sha, ToolStep(sha, w, e)) && Safe(sha, w, ToolStep(sha, w, e))
  {
    hide Safe, MayGo, Named, Owned, Readable, Names, Audits;
    if (e.UnlinkStale? && w.tool.Clearing?) || (e.Discard? && w.tool.Rejected?) {
      LockedTarget(sha, w);
      RemoveSafe(sha, w, Target(w.st.rows[w.tool.id]), if e.Discard? then Off else Cleared(w.tool.id));
    } else {
      assert ToolStep(sha, w, e) == w;
      PhaseOnly(sha, w, w.tool);
    }
  }

  lemma DropSafe(sha: Bytes -> string, w: World)
    requires Inv(sha, w)
    ensures Inv(sha, ToolStep(sha, w, Drop)) && Safe(sha, w, ToolStep(sha, w, Drop))
  {
    if w.tool.Switched? {
      OwnMayGo(sha, w, w.tool.id, w.tool.src);
      RemoveSafe(sha, w, w.tool.src, Off);
    } else {
      assert ToolStep(sha, w, Drop) == w;
      PhaseOnly(sha, w, w.tool);
    }
  }

  lemma SweepSafe(sha: Bytes -> string, w: World)
    requires Inv(sha, w)
    ensures Inv(sha, ToolStep(sha, w, RemoveLeftover)) && Safe(sha, w, ToolStep(sha, w, RemoveLeftover))
  {
    if w.tool.Doomed? {
      var id := w.tool.id;
      var row := w.tool.snap[id];
      var p := LeftoverOf(row);
      LeftoverFree(map[id := row], id);
      assert p.name + ".enc" == row.name;
      OwnMayGo(sha, w, id, p);
      RemoveSafe(sha, w, p, Sweeping(w.tool.snap));
    } else {
      assert ToolStep(sha, w, RemoveLeftover) == w;
      PhaseOnly(sha, w, w.tool);
    }
  }

  lemma PlaceInv(sha: Bytes -> string, w: World)
    requires Inv(sha, w) && w.tool.Staged?
    ensures Inv(sha, ToolStep(sha, w, Place))
  {
    hide Readable, Owned, Named, Intact, MayGo, OwnedRows;
    var id := w.tool.id;
    var p := Target(w.st.rows[id]);
    TargetFree(w.st.rows, id);
    forall other | Owned(other, p.name) ensures other == id { OneOwner(id, other, p.name); }
  }

  lemma PlaceSafe(sha: Bytes -> string, w: World)
    requires Inv(sha, w)
    ensures Inv(sha, ToolStep(sha, w, Place)) && Safe(sha, w, ToolStep(sha, w, Place))
  {
    hide Readable, Owned, Named, Intact, MayGo, ToolKnows, Audits;
    var v := ToolStep(sha, w, Place);
    if w.tool.Staged? {
      LockedTarget(sha, w);
      OthersReadable(sha, w, v.st.files, Target(w.st.rows[w.tool.id]));
      PlaceInv(sha, w);
    } else {
      assert v == w;
      PhaseOnly(sha, w, w.tool);
    }
  }

  lemma SwitchInv(sha: Bytes -> string, w: World)
    requires Inv(sha, w) && w.tool.Verified?
    ensures Inv(sha, ToolStep(sha, w, SwitchRow))
  {
    var v := ToolStep(sha, w, SwitchRow);
    hide Readable, Owned, Named, Intact;
    TargetFree(w.st.rows, w.tool.id);
    assert Names(v) by { hide ToolKnows, Audits; }
    assert ToolKnows(sha, v) by { hide Audits; }
  }

  lemma SwitchRows(sha: Bytes -> string, w: World)
    requires Inv(sha, w) && w.tool.Verified?
    ensures var v := ToolStep(sha, w, SwitchRow);
            SafeRows(sha, w, v) && SafeIds(w, v) && v.st.files == w.st.files
  {
    hide Readable, Owned, OwnedRows, Named, Intact, Audits, SweepKnows;
    var v := ToolStep(sha, w, SwitchRow);
    assert v.uploads == w.uploads && v.used == w.used && v.st.rows.Keys == w.st.rows.Keys;
  }

  lemma SwitchSafe(sha: Bytes -> string, w: World)
    requires Inv(sha, w)
    ensures Inv(sha, ToolStep(sha, w, SwitchRow)) && Safe(sha, w, ToolStep(sha, w, SwitchRow))
  {
    hide SafeRows, SafeIds, Inv;
    if w.tool.Verified? {
      SwitchInv(sha, w);
      SwitchRows(sha, w);
      hide ToolStep;
    } else {
      assert ToolStep(sha, w, SwitchRow) == w;
      SameSafe(sha, w);
    }
  }

  lemma SameSafe(sha: Bytes -> string, w: World)
    requires Inv(sha, w)
    ensures Safe(sha, w, w)
  {
    assert w.(tool := w.tool) == w;
    hide Safe;
    PhaseOnly(sha, w, w.tool);
  }

  lemma PhaseStepSafe(sha: Bytes -> string, w: World, e: ToolEvent)
    requires Inv(sha, w)
    requires e.Lock? || e.Inspect? || e.Encrypt? || e.Verify? || e.StartSweep? || e.CheckLeftover? || e.ToolStops?
    ensures Inv(sha, ToolStep(sha, w, e)) && Safe(sha, w, ToolStep(sha, w, e))
  {
    var v := ToolStep(sha, w, e);
    assert v == w.(tool := v.tool);
    assert ToolKnows(sha, v) by { hide Readable, Owned, Named, Intact, Audits; }
    PhaseOnly(sha, w, v.tool);
  }

  lemma ToolSafe(sha: Bytes -> string, w: World, e: ToolEvent)
    requires Inv(sha, w)
    ensures Inv(sha, ToolStep(sha, w, e)) && Safe(sha, w, ToolStep(sha, w, e))
  {
    hide Inv, Safe, ToolStep;
    match e
    case UnlinkStale => TargetStepSafe(sha, w, e);
    case Discard => TargetStepSafe(sha, w, e);
    case Place => PlaceSafe(sha, w);
    case SwitchRow => SwitchSafe(sha, w);
    case Drop => DropSafe(sha, w);
    case RemoveLeftover => SweepSafe(sha, w);
    case _ => PhaseStepSafe(sha, w, e);
  }

  lemma StepSafe(sha: Bytes -> string, w: World, e: Event)
    requires Inv(sha, w)
    ensures Inv(sha, Step(sha, w, e)) && Safe(sha, w, Step(sha, w, e))
  {
    hide Inv, Safe, ToolStep, BackendStep;
    match e
    case Backend(b) => BackendSafe(sha, w, b);
    case OfTool(t) => ToolSafe(sha, w, t);
  }

  // ---- whole runs ----

  /** A quarantine before the tool ever ran. */
  lemma StartHolds(sha: Bytes -> string, w: World)
    requires w.tool.Off? && w.uploads == map[] && w.unlinks == {} && w.st.audits == multiset{}
    requires OwnedRows(w.st.rows) && w.st.rows.Keys <= w.used
    requires forall p, id :: p in w.st.files && Owned(id, p.name) ==> id in w.used
    ensures Inv(sha, w)
  {
  }

  /** What a run has done to the rows and uploads there were at its start. */
  ghost predicate Kept(sha: Bytes -> string, w: World, v: World) {
    forall id :: id in Known(w) ==>
      && id in v.used && (id in w.st.rows ==> id !in v.uploads)
      && (id in Known(v) ==>
            && Lineage(Known(w)[id], w.st.audits[id], Known(v)[id], v.st.audits[id])
            && (Readable(sha, w.st.files, Known(w)[id]) ==> Readable(sha, v.st.files, Known(v)[id])))
  }

  lemma KeptStep(sha: Bytes -> string, w: World, u: World, v: World)
    requires Kept(sha, w, u) && Safe(sha, u, v) && Names(v)
    ensures Kept(sha, w, v)
  {
    hide Readable, Owned, OwnedRows, Named, MayGo;
  }

  /** Over every interleaving, with crashes anywhere: a row that could be read and was not deleted,
      from the moment its upload wrote the file, can be read under the same recorded hash and size;
      it is encrypted at most once, and audited exactly then. */
  lemma {:induction false} RunKeeps(sha: Bytes -> string, w: World, es: seq<Event>)
    requires Inv(sha, w)
    ensures Inv(sha, Run(sha, w, es)) && Kept(sha, w, Run(sha, w, es))
  {
    hide Readable, Owned, OwnedRows, Named, MayGo, Step, Safe, ToolKnows;
    if es != [] {
      hide Kept, Inv;
      var n := |es| - 1;
      RunKeeps(sha, w, es[..n]);
      StepSafe(sha, Run(sha, w, es[..n]), es[n]);
      InvNames(sha, Run(sha, w, es));
      KeptStep(sha, w, Run(sha, w, es[..n]), Run(sha, w, es));
    }
  }

  /** The bytes a known row yields. */
  function BytesOf(w: World, id: string): Option<Bytes>
    requires id in Known(w)
  {
    Read(w.st.files, Known(w)[id])
  }

  /** And it yields the very bytes it yielded, unless the hash collides on the two contents. */
  lemma RunKeepsBytes(sha: Bytes -> string, w: World, es: seq<Event>, id: string)
    requires Inv(sha, w) && id in Known(w) && id in Known(Run(sha, w, es))
    requires Readable(sha, w.st.files, Known(w)[id])
    requires var v := Run(sha, w, es);
             BytesOf(v, id).Some? && sha(BytesOf(w, id).value) == sha(BytesOf(v, id).value)
             ==> BytesOf(w, id) == BytesOf(v, id)
    ensures BytesOf(Run(sha, w, es), id) == BytesOf(w, id)
  {
    hide Step, Run, Inv;
    RunKeeps(sha, w, es);
  }

  lemma InvNames(sha: Bytes -> string, w: World)
    requires Inv(sha, w)
    ensures Names(w) && OwnedRows(w.st.rows) && Audits(w)
  {
  }

  /** After any run cut short anywhere, one uninterrupted --apply run encrypts every artifact that
      was intact plaintext at the start and still exists: it reads back, its plaintext file is gone,
      exactly one audit row was written for it, and a further run changes nothing. */
  lemma CrashThenApply(sha: Bytes -> string, w: World, es: seq<Event>, ids: seq<string>,
                       nonces: string -> string, disk: Disk)
    requires Inv(sha, w) && Healthy(disk) && Lists(ids, Run(sha, w, es).st.rows)
    ensures var c := Run(sha, w, es).st;
            var t := ApplyRun(sha, c, ids, nonces, disk);
            && (forall id :: id in w.st.rows && id in c.rows ==> Recovered(sha, w.st, t, id))
            && t.rows.Keys == c.rows.Keys
            && ApplyRun(sha, t, ids, nonces, disk) == t
  {
    hide *;
    var v := Run(sha, w, es);
    var t := ApplyRun(sha, v.st, ids, nonces, disk);
    RunKeeps(sha, w, es);
    InvNames(sha, v);
    InvNames(sha, w);
    ApplyRunCompletes(sha, v.st, ids, nonces, disk);
    SecondRunIdle(sha, v.st, ids, nonces, disk, ids, nonces, disk);
    forall id | id in w.st.rows && id in v.st.rows ensures Recovered(sha, w.st, t, id) {
      RecoveredRow(sha, w, v, t, id, nonces(id));
    }
  }

  ghost predicate Recovered(sha: Bytes -> string, s: Store, t: Store, id: string)
    requires id in s.rows
  {
    && id in t.rows
    && Lineage(s.rows[id], s.audits[id], t.rows[id], t.audits[id])
    && (Readable(sha, s.files, s.rows[id]) ==> Readable(sha, t.files, t.rows[id]))
    && (Intact(sha, s.files, s.rows[id]) ==>
          t.rows[id].nonce.Some? && t.audits[id] == 1 && At(s.rows[id]) !in t.files)
  }

  lemma RecoveredRow(sha: Bytes -> string, w: World, v: World, t: Store, id: string, nonce: string)
    requires Kept(sha, w, v) && Audits(w) && id in w.st.rows && id in v.st.rows
    requires Done(sha, v.st, t, id, nonce) && AllSettled(sha, t)
    ensures Recovered(sha, w.st, t, id)
  {
    hide Readable, EndsInEnc;
    var r, r' := w.st.rows[id], t.rows[id];
    assert Settled(sha, t, id);
    if r.nonce.None? && r'.nonce.Some? {
      EncTail(r.name);
      assert r'.name == r.name + ".enc";
    }
  }

  lemma EncTail(name: string)
    ensures EndsInEnc(name + ".enc") && (name + ".enc")[..|name + ".enc"| - 4] == name
  {
    assert (name + ".enc")[|name|..] == ".enc";
  }

  // ---- the uninterrupted tool is one of the runs ----

  lemma {:induction false} RunConcat(sha: Bytes -> string, w: World, a: seq<Event>, b: seq<Event>)
    ensures Run(sha, w, a + b) == Run(sha, Run(sha, w, a), b)
  {
    if b == [] {
      assert a + b == a;
    } else {
      hide Step;
      var n := |b| - 1;
      assert (a + b)[..|a + b| - 1] == a + b[..n] && (a + b)[|a + b| - 1] == b[n];
      RunConcat(sha, w, a, b[..n]);
    }
  }

  /** migrate_one, effect by effect; `file` is what the disk holds after the container is written. */
  function MigrateEvents(id: string, nonce: string, file: File, unlinkWorks: bool): seq<ToolEvent> {
    [Lock(id), Inspect, UnlinkStale, Encrypt(nonce, file), Place, Verify, Discard, SwitchRow,
     if unlinkWorks then Drop else ToolStops]
  }

  function OfTools(ts: seq<ToolEvent>): (es: seq<Event>)
    ensures ToolOnly(es)
  {
    seq(|ts|, i requires 0 <= i < |ts| => OfTool(ts[i]))
  }

  /** Nothing of the backend happens in between. */
  predicate ToolOnly(es: seq<Event>) { forall i :: 0 <= i < |es| ==> es[i].OfTool? }

  function Written(st: Store, id: string, nonce: string, disk: Disk): File {
    if id in st.rows && At(st.rows[id]) in st.files && st.files[At(st.rows[id])].Plain?
    then disk.write(nonce, st.files[At(st.rows[id])].data) else Corrupt
  }

  function Steps(sha: Bytes -> string, w: World, ts: seq<ToolEvent>): World
    decreases |ts|
  {
    if ts == [] then w else Steps(sha, ToolStep(sha, w, ts[0]), ts[1..])
  }

  lemma {:induction false} StepsAreRun(sha: Bytes -> string, w: World, ts: seq<ToolEvent>)
    ensures Steps(sha, w, ts) == Run(sha, w, OfTools(ts))
    decreases |ts|
  {
    if ts != [] {
      hide ToolStep;
      var one: seq<Event> := [OfTool(ts[0])];
      assert OfTools(ts) == one + OfTools(ts[1..]);
      RunConcat(sha, w, one, OfTools(ts[1..]));
      assert one[..0] == [];
      assert Run(sha, w, one) == ToolStep(sha, w, ts[0]);
      StepsAreRun(sha, ToolStep(sha, w, ts[0]), ts[1..]);
    }
  }

  /** Up to the staged container. */
  function Prepare(sha: Bytes -> string, w: World, id: string, nonce: string, file: File): World {
    ToolStep(sha, ToolStep(sha, ToolStep(sha, ToolStep(sha, w, Lock(id)), Inspect), UnlinkStale), Encrypt(nonce, file))
  }

  /** From the rename to the end. */
  function Finish(sha: Bytes -> string, w: World, last: ToolEvent): World {
    var checked := ToolStep(sha, ToolStep(sha, w, Place), Verify);
    ToolStep(sha, ToolStep(sha, ToolStep(sha, checked, Discard), SwitchRow), last)
  }

  predicate Refused(st: Store, id: string) {
    || id !in st.rows || st.rows[id].nonce.Some? || At(st.rows[id]) !in st.files
    || (Target(st.rows[id]) in st.files && Named(st.rows, Target(st.rows[id])))
  }

  lemma Prepared(sha: Bytes -> string, w: World, id: string, nonce: string, file: File)
    requires w.tool.Off?
    ensures Refused(w.st, id) ==> Prepare(sha, w, id, nonce, file) == w
    ensures !Refused(w.st, id) ==>
      Prepare(sha, w, id, nonce, file) == w.(st := Remove(w.st, Target(w.st.rows[id])),
        tool := if Intact(sha, Remove(w.st, Target(w.st.rows[id])).files, w.st.rows[id])
            then Staged(id, nonce, file) else Off)
  {
    hide Readable, Named, Intact;
    if id in w.st.rows && Target(w.st.rows[id]) !in w.st.files { assert Remove(w.st, Target(w.st.rows[id])) == w.st; }
  }

  /** What Finish leaves of a store with a staged container. */
  function Finished(sha: Bytes -> string, st: Store, id: string, nonce: string, file: File, unlinkWorks: bool): Store
    requires id in st.rows
  {
    var placed := st.(files := st.files[Target(st.rows[id]) := file]);
    if !Readable(sha, placed.files, Encrypted(st.rows[id], nonce)) then st
    else if unlinkWorks then Remove(Switch(placed, id, nonce), At(st.rows[id]))
    else Switch(placed, id, nonce)
  }

  lemma FinishStaged(sha: Bytes -> string, w: World, unlinkWorks: bool)
    requires w.tool.Staged? && w.tool.id in w.st.rows && Target(w.st.rows[w.tool.id]) !in w.st.files
    ensures Finish(sha, w, if unlinkWorks then Drop else ToolStops)
         == w.(tool := Off, st := Finished(sha, w.st, w.tool.id, w.tool.nonce, w.tool.file, unlinkWorks))
  {
    hide Readable, Named, Intact;
    var row := w.st.rows[w.tool.id];
    assert w.st.files[Target(row) := w.tool.file] - {Target(row)} == w.st.files;
  }

  lemma FinishIdle(sha: Bytes -> string, w: World, unlinkWorks: bool)
    requires w.tool.Off?
    ensures Finish(sha, w, if unlinkWorks then Drop else ToolStops) == w
  {
    hide Readable, Named, Intact;
  }

  lemma StepsCons(sha: Bytes -> string, w: World, t: ToolEvent, rest: seq<ToolEvent>)
    ensures Steps(sha, w, [t] + rest) == Steps(sha, ToolStep(sha, w, t), rest)
  {
    hide ToolStep;
    assert ([t] + rest)[1..] == rest;
  }

  lemma StepsTwo(sha: Bytes -> string, w: World, a: ToolEvent, b: ToolEvent)
    ensures Steps(sha, w, [a, b]) == ToolStep(sha, ToolStep(sha, w, a), b)
  {
    hide ToolStep;
    assert [a, b] == [a] + [b] && [b] == [b] + [];
    StepsCons(sha, w, a, [b]);
    StepsCons(sha, ToolStep(sha, w, a), b, []);
  }

  lemma StepsNine(sha: Bytes -> string, w: World, id: string, nonce: string, file: File, last: ToolEvent)
    ensures Steps(sha, w, [Lock(id), Inspect, UnlinkStale, Encrypt(nonce, file), Place, Verify, Discard, SwitchRow,
        last])
         == Finish(sha, Prepare(sha, w, id, nonce, file), last)
  {
    hide ToolStep, Steps;
    var w1 := ToolStep(sha, w, Lock(id));
    var w2 := ToolStep(sha, w1, Inspect);
    var w3 := ToolStep(sha, w2, UnlinkStale);
    var w4 := ToolStep(sha, w3, Encrypt(nonce, file));
    var w5 := ToolStep(sha, w4, Place);
    var w6 := ToolStep(sha, w5, Verify);
    var w7 := ToolStep(sha, w6, Discard);
    var five := [Place, Verify, Discard, SwitchRow, last];
    StepsCons(sha, w, Lock(id), [Inspect, UnlinkStale, Encrypt(nonce, file)] + five);
    StepsCons(sha, w1, Inspect, [UnlinkStale, Encrypt(nonce, file)] + five);
    StepsCons(sha, w2, UnlinkStale, [Encrypt(nonce, file)] + five);
    StepsCons(sha, w3, Encrypt(nonce, file), five);
    StepsCons(sha, w4, Place, [Verify, Discard, SwitchRow, last]);
    StepsCons(sha, w5, Verify, [Discard, SwitchRow, last]);
    StepsCons(sha, w6, Discard, [SwitchRow, last]);
    StepsTwo(sha, w7, SwitchRow, last);
    assert [Lock(id), Inspect, UnlinkStale, Encrypt(nonce, file), Place, Verify, Discard, SwitchRow, last]
        == [Lock(id)] + ([Inspect, UnlinkStale, Encrypt(nonce, file)] + five);
    assert [Inspect, UnlinkStale, Encrypt(nonce, file)] + five
        == [Inspect] + ([UnlinkStale, Encrypt(nonce, file)] + five);
    assert [UnlinkStale, Encrypt(nonce, file)] + five == [UnlinkStale] + ([Encrypt(nonce, file)] + five);
    assert five == [Place] + [Verify, Discard, SwitchRow, last];
    assert [Verify, Discard, SwitchRow, last] == [Verify] + [Discard, SwitchRow, last];
    assert [Discard, SwitchRow, last] == [Discard] + [SwitchRow, last];
  }

  /** Migrate, told through the same two halves. */
  lemma MigrateHalves(sha: Bytes -> string, st: Store, id: string, nonce: string, disk: Disk)
    ensures Refused(st, id) ==> Migrate(sha, st, id, nonce, disk).0 == st
    ensures !Refused(st, id) && !Intact(sha, Remove(st, Target(st.rows[id])).files, st.rows[id]) ==>
              Migrate(sha, st, id, nonce, disk).0 == Remove(st, Target(st.rows[id]))
    ensures !Refused(st, id) && Intact(sha, Remove(st, Target(st.rows[id])).files, st.rows[id]) ==>
              Migrate(sha, st, id, nonce, disk).0 == Finished(sha, Remove(st, Target(st.rows[id])), id, nonce,
                                                              Written(st, id, nonce, disk), disk.unlinkWorks)
  {
    hide Readable, Named;
    if id in st.rows {
      assert Target(st.rows[id]) != At(st.rows[id]) by { assert |Target(st.rows[id]).name| > |st.rows[id].name|; }
      IntactPlain(sha, Remove(st, Target(st.rows[id])).files, st.rows[id]);
    }
  }

  lemma IntactPlain(sha: Bytes -> string, files: map<Path, File>, row: Row)
    ensures Intact(sha, files, row) ==> At(row) in files && files[At(row)].Plain?
  {
  }

  /** Uninterrupted, with the tool's own effects only, one artifact is migrated as Migrate says. */
  lemma MigrateIsARun(sha: Bytes -> string, w: World, id: string, nonce: string, disk: Disk)
    requires w.tool.Off?
    ensures Steps(sha, w, MigrateEvents(id, nonce, Written(w.st, id, nonce, disk), disk.unlinkWorks))
         == w.(st := Migrate(sha, w.st, id, nonce, disk).0)
  {
    hide Steps, Prepare, Finish, Migrate, Finished, Written, Intact, Named;
    var file := Written(w.st, id, nonce, disk);
    var u := Prepare(sha, w, id, nonce, file);
    StepsNine(sha, w, id, nonce, file, if disk.unlinkWorks then Drop else ToolStops);
    Prepared(sha, w, id, nonce, file);
    MigrateHalves(sha, w.st, id, nonce, disk);
    if u.tool.Staged? { FinishStaged(sha, u, disk.unlinkWorks); } else { FinishIdle(sha, u, disk.unlinkWorks); }
  }

  lemma {:induction false} MigrateAllIsARun(sha: Bytes -> string, w: World, ids: seq<string>,
      nonces: string -> string, disk: Disk)
    returns (es: seq<Event>)
    requires w.tool.Off?
    ensures Run(sha, w, es) == w.(st := MigrateAll(sha, w.st, ids, nonces, disk)) && ToolOnly(es)
  {
    hide ToolStep, BackendStep, Migrate, Written, MigrateEvents, Steps;
    if ids == [] { return []; }
    var n := |ids| - 1;
    var before := MigrateAllIsARun(sha, w, ids[..n], nonces, disk);
    var u := Run(sha, w, before);
    var ts := MigrateEvents(ids[n], nonces(ids[n]), Written(u.st, ids[n], nonces(ids[n]), disk), disk.unlinkWorks);
    MigrateIsARun(sha, u, ids[n], nonces(ids[n]), disk);
    StepsAreRun(sha, u, ts);
    RunConcat(sha, w, before, OfTools(ts));
    es := before + OfTools(ts);
  }

  lemma CleanIsARun(sha: Bytes -> string, w: World, id: string)
    requires w.tool.Sweeping? && w.tool.snap == w.st.rows
    ensures Steps(sha, w, [CheckLeftover(id), RemoveLeftover]) == w.(st := CleanLeftover(sha, w.st, id))
  {
    hide Readable, Named;
    StepsTwo(sha, w, CheckLeftover(id), RemoveLeftover);
    var u := ToolStep(sha, w, CheckLeftover(id));
    assert u.tool.Doomed? ==> CleanLeftover(sha, w.st, id) == Remove(w.st, LeftoverOf(w.st.rows[id]));
  }

  lemma {:induction false} CleanAllIsARun(sha: Bytes -> string, w: World, ids: seq<string>) returns (es: seq<Event>)
    requires w.tool.Sweeping? && w.tool.snap == w.st.rows
    ensures Run(sha, w, es) == w.(st := CleanAll(sha, w.st, ids)) && ToolOnly(es)
  {
    hide ToolStep, BackendStep, CleanLeftover, Steps;
    if ids == [] { return []; }
    var n := |ids| - 1;
    var before := CleanAllIsARun(sha, w, ids[..n]);
    CleanAllKeepsRows(sha, w.st, ids[..n]);
    var ts := [CheckLeftover(ids[n]), RemoveLeftover];
    CleanIsARun(sha, Run(sha, w, before), ids[n]);
    StepsAreRun(sha, Run(sha, w, before), ts);
    RunConcat(sha, w, before, OfTools(ts));
    es := before + OfTools(ts);
  }

  lemma OneStep(sha: Bytes -> string, w: World, before: seq<Event>, e: Event)
    ensures Run(sha, w, before + [e]) == Step(sha, Run(sha, w, before), e)
  {
    hide Step;
    assert (before + [e])[..|before|] == before;
  }

  /** A whole undisturbed --apply run is one of the runs of the protocol, one of the tool's effects alone. */
  lemma ApplyIsARun(sha: Bytes -> string, w: World, ids: seq<string>, nonces: string -> string, disk: Disk)
    returns (es: seq<Event>)
    requires w.tool.Off?
    ensures Run(sha, w, es) == w.(st := ApplyRun(sha, w.st, ids, nonces, disk)) && ToolOnly(es)
  {
    hide Run, MigrateAll, CleanAll, PlainIds;
    var first := MigrateAllIsARun(sha, w, PlainIds(w.st, ids), nonces, disk);
    var u := Run(sha, w, first);
    OneStep(sha, w, first, OfTool(StartSweep));
    var v := Step(sha, u, OfTool(StartSweep));
    var second := CleanAllIsARun(sha, v, ids);
    RunConcat(sha, w, first + [OfTool(StartSweep)], second);
    OneStep(sha, w, first + [OfTool(StartSweep)] + second, OfTool(ToolStops));
    es := first + [OfTool(StartSweep)] + second + [OfTool(ToolStops)];
  }
}
