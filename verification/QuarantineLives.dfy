/** The life of one artifact, from its upload to its delete, over every interleaving with the backend
    and the migration tool (backend/artifacts/routes.py, backend/artifacts/encrypt_quarantine.py). */
module QuarantineLives {
  import opened Optional
  import opened QuarantineStore
  import opened QuarantineRun
  import opened QuarantineProtocol

  // ---- what is not deleted stays ----

  /** Nobody deletes the artifact. */
  predicate Spares(es: seq<Event>, id: string) { forall i :: 0 <= i < |es| ==> es[i] != Backend(Delete(id)) }

  predicate Drops(e: Event, id: string) {
    e == Backend(Delete(id)) || e == Backend(AbortUpload(id)) || e == Backend(BackendCrash)
  }

  /** Nor does its upload fail, nor the backend. */
  predicate Undropped(es: seq<Event>, id: string) { forall i :: 0 <= i < |es| ==> !Drops(es[i], id) }

  lemma RowStays(sha: Bytes -> string, w: World, e: Event, id: string)
    requires id in w.st.rows && e != Backend(Delete(id))
    ensures id in Step(sha, w, e).st.rows
  {
    hide Readable, Intact, Named;
  }

  lemma KnownStays(sha: Bytes -> string, w: World, e: Event, id: string)
    requires id in Known(w) && !Drops(e, id)
    ensures id in Known(Step(sha, w, e))
  {
    hide Readable, Intact, Named;
  }

  /** The artifact is not deleted; and if it is an upload under way, it does not fail. */
  predicate Survives(w: World, es: seq<Event>, id: string) {
    id in Known(w) && (Undropped(es, id) || (id in w.st.rows && Spares(es, id)))
  }

  lemma {:induction false} SurvivorStays(sha: Bytes -> string, w: World, es: seq<Event>, id: string)
    requires Survives(w, es, id)
    ensures id in Known(Run(sha, w, es)) && (id in w.st.rows ==> id in Run(sha, w, es).st.rows)
  {
    hide Step;
    if es != [] {
      SurvivorStays(sha, w, es[..|es| - 1], id);
      var u, e := Run(sha, w, es[..|es| - 1]), es[|es| - 1];
      if id in u.st.rows { RowStays(sha, u, e, id); } else { KnownStays(sha, u, e, id); }
    }
  }

  /** Over every interleaving with crashes anywhere: an artifact nobody deletes keeps its row, which
      is switched at most once and audited exactly then, and it can be read if it could be. */
  lemma UndeletedKept(sha: Bytes -> string, w: World, es: seq<Event>, id: string)
    requires Inv(sha, w) && Survives(w, es, id)
    ensures var v := Run(sha, w, es);
            && id in Known(v) && (id in w.st.rows ==> id in v.st.rows)
            && Lineage(Known(w)[id], w.st.audits[id], Known(v)[id], v.st.audits[id])
            && (Readable(sha, w.st.files, Known(w)[id]) ==> Readable(sha, v.st.files, Known(v)[id]))
  {
    hide Run, Inv, Readable, Lineage, Known, Survives;
    SurvivorStays(sha, w, es, id);
    RunKeeps(sha, w, es);
    assert id in Known(w) by { SurvivorKnown(w, es, id); }
  }

  lemma SurvivorKnown(w: World, es: seq<Event>, id: string)
    requires Survives(w, es, id)
    ensures id in Known(w)
  {}

  // ---- an upload ends as the row that yields its bytes ----

  /** The artifact has this row, committed or not, and its file is as it was written. */
  ghost predicate Has(w: World, id: string, row: Row, file: File) {
    id in Known(w) && Known(w)[id] == row && At(row) in w.st.files && w.st.files[At(row)] == file
  }

  lemma HasStays(sha: Bytes -> string, w: World, e: Event, id: string, row: Row, file: File)
    requires Inv(sha, w) && Has(w, id, row, file) && row.nonce.Some? && id in Known(Step(sha, w, e))
    ensures Inv(sha, Step(sha, w, e)) && Has(Step(sha, w, e), id, row, file)
  {
    hide Step, Inv, Readable, MayGo;
    StepSafe(sha, w, e);
  }

  lemma {:induction false} UploadStays(sha: Bytes -> string, w: World, es: seq<Event>, id: string, row: Row,
                                       file: File)
    requires Inv(sha, w) && Has(w, id, row, file) && row.nonce.Some? && Survives(w, es, id)
    ensures Inv(sha, Run(sha, w, es)) && Has(Run(sha, w, es), id, row, file)
    ensures id in w.st.rows ==> id in Run(sha, w, es).st.rows
  {
    hide Step, Inv;
    if es != [] {
      UploadStays(sha, w, es[..|es| - 1], id, row, file);
      SurvivorStays(sha, w, es, id);
      HasStays(sha, Run(sha, w, es[..|es| - 1]), es[|es| - 1], id, row, file);
    }
  }

  lemma Started(sha: Bytes -> string, w: World, id: string, row: Row, file: File)
    requires Inv(sha, w) && |id| == 36 && '.' !in id && id !in w.used && row.name == id + ".enc" && row.nonce.Some?
    ensures var v := Step(sha, w, Backend(StartUpload(id, row, file)));
            Inv(sha, v) && Has(v, id, row, file) && id in v.uploads && id !in v.st.rows
  {
    StepSafe(sha, w, Backend(StartUpload(id, row, file)));
    assert id !in w.st.rows;
    hide Inv, Safe;
  }

  lemma Committed(sha: Bytes -> string, w: World, id: string, row: Row, file: File)
    requires Inv(sha, w) && Has(w, id, row, file) && row.nonce.Some?
    ensures var v := Step(sha, w, Backend(CommitUpload(id)));
            Inv(sha, v) && Has(v, id, row, file) && id in v.st.rows
  {
    StepSafe(sha, w, Backend(CommitUpload(id)));
    hide Inv, Safe;
  }

  /** The events of an upload and what comes in between and after. */
  function Upload(id: string, row: Row, file: File, a: seq<Event>, b: seq<Event>): seq<Event> {
    [Backend(StartUpload(id, row, file))] + a + [Backend(CommitUpload(id))] + b
  }

  /** An upload under a fresh id whose commit is reached ends as its committed row, and its file is as
      it was written, whatever else happens, until somebody deletes it: a container with the recorded
      nonce and size yields the very bytes uploaded. */
  lemma UploadCommits(sha: Bytes -> string, w: World, id: string, row: Row, file: File, a: seq<Event>, b: seq<Event>)
    requires Inv(sha, w) && |id| == 36 && '.' !in id && id !in w.used && row.name == id + ".enc" && row.nonce.Some?
    requires Undropped(a, id) && Spares(b, id)
    ensures var v := Run(sha, w, Upload(id, row, file, a, b));
            && id in v.st.rows && v.st.rows[id] == row && At(row) in v.st.files && v.st.files[At(row)] == file
            && (file.Enc? && Some(file.nonce) == row.nonce && |file.data| == row.size ==>
                  Read(v.st.files, v.st.rows[id]) == Some(file.data))
  {
    hide Step, Run, Inv;
    var start, commit := Backend(StartUpload(id, row, file)), Backend(CommitUpload(id));
    RunFirst(sha, w, start);
    Started(sha, w, id, row, file);
    RunConcat(sha, w, [start], a);
    UploadStays(sha, Run(sha, w, [start]), a, id, row, file);
    OneStep(sha, w, [start] + a, commit);
    Committed(sha, Run(sha, w, [start] + a), id, row, file);
    RunConcat(sha, w, [start] + a + [commit], b);
    UploadStays(sha, Run(sha, w, [start] + a + [commit]), b, id, row, file);
  }

  lemma RunFirst(sha: Bytes -> string, w: World, e: Event)
    ensures Run(sha, w, [e]) == Step(sha, w, e)
  {
    hide Step;
    assert [e][..0] == [];
  }

  // ---- what is deleted stays deleted, and its file goes ----

  /** The artifact was given out and is no more. */
  predicate Over(w: World, id: string) { id in w.used && id !in Known(w) }

  lemma OverStays(sha: Bytes -> string, w: World, e: Event, id: string)
    requires Inv(sha, w) && Over(w, id)
    ensures Inv(sha, Step(sha, w, e)) && Over(Step(sha, w, e), id)
  {
    hide Step, Inv, SafeRows, SafeFiles;
    StepSafe(sha, w, e);
  }

  /** A file that appears belongs to an artifact there is. */
  lemma NewFileOwned(sha: Bytes -> string, w: World, e: Event, id: string, p: Path)
    requires Inv(sha, w) && Over(w, id) && Owned(id, p.name) && p !in w.st.files
    ensures p !in Step(sha, w, e).st.files
  {
    hide Readable, Intact, Named, SweepKnows, Audits;
    match e
    case Backend(StartUpload(other, row, file)) =>
      if p == At(row) && Step(sha, w, e) != w {
        assert row.name[..36] == other;
        OneOwner(id, other, p.name);
      }
    case OfTool(Place) =>
      if w.tool.Staged? {
        TargetFree(w.st.rows, w.tool.id);
        if p == Target(w.st.rows[w.tool.id]) { OneOwner(id, w.tool.id, p.name); }
      }
    case _ =>
  }

  lemma {:induction false} GoneStays(sha: Bytes -> string, w: World, es: seq<Event>, id: string, p: Path)
    requires Inv(sha, w) && Over(w, id) && Owned(id, p.name)
    ensures Inv(sha, Run(sha, w, es)) && Over(Run(sha, w, es), id)
    ensures p !in w.st.files ==> p !in Run(sha, w, es).st.files
  {
    hide Step, Inv, Over, Owned;
    if es != [] {
      var u, e := Run(sha, w, es[..|es| - 1]), es[|es| - 1];
      GoneStays(sha, w, es[..|es| - 1], id, p);
      OverStays(sha, u, e, id);
      if p !in u.st.files { NewFileOwned(sha, u, e, id, p); }
    }
  }

  predicate NoCrash(es: seq<Event>) { forall i :: 0 <= i < |es| ==> es[i] != Backend(BackendCrash) }

  /** The unlink is owed, or done. */
  predicate OwedOrDone(w: World, id: string, p: Path) { (id, p) in w.unlinks || p !in w.st.files }

  lemma OwedStays(sha: Bytes -> string, w: World, e: Event, id: string, p: Path)
    requires Inv(sha, w) && Over(w, id) && Owned(id, p.name) && OwedOrDone(w, id, p) && e != Backend(BackendCrash)
    ensures OwedOrDone(Step(sha, w, e), id, p)
  {
    if p !in w.st.files {
      NewFileOwned(sha, w, e, id, p);
    } else {
      hide Readable, Intact, Named, Inv;
    }
  }

  lemma {:induction false} OwedThroughout(sha: Bytes -> string, w: World, es: seq<Event>, id: string, p: Path)
    requires Inv(sha, w) && Over(w, id) && Owned(id, p.name) && OwedOrDone(w, id, p) && NoCrash(es)
    ensures OwedOrDone(Run(sha, w, es), id, p)
  {
    hide Step, Inv, Over, Owned, OwedOrDone;
    if es != [] {
      OwedThroughout(sha, w, es[..|es| - 1], id, p);
      GoneStays(sha, w, es[..|es| - 1], id, p);
      OwedStays(sha, Run(sha, w, es[..|es| - 1]), es[|es| - 1], id, p);
    }
  }

  /** A delete of a row the tool does not hold, or the failure of an upload. */
  predicate Ends(w: World, e: BackendEvent, id: string) {
    || (e == Delete(id) && id in w.st.rows && !(LocksRow(w.tool) && w.tool.id == id))
    || (e == AbortUpload(id) && id in w.uploads)
  }

  lemma EndOwes(sha: Bytes -> string, w: World, e: BackendEvent, id: string)
    requires Inv(sha, w) && Ends(w, e, id)
    ensures id in Known(w) && Owned(id, At(Known(w)[id]).name)
    ensures var v := Step(sha, w, Backend(e));
            Inv(sha, v) && Over(v, id) && OwedOrDone(v, id, At(Known(w)[id]))
  {
    StepSafe(sha, w, Backend(e));
    hide Readable, Intact, Named, Safe, ToolKnows, Audits;
  }

  /** A deleted artifact, and one whose upload failed, never comes back, whatever happens; and once the
      unlink that is owed then was made, with no crash of the backend before it, its file is gone for
      good: no row is left without a file and, but for a crash, no file without a row. */
  lemma DeleteIsFinal(sha: Bytes -> string, w: World, e: BackendEvent, id: string, a: seq<Event>, b: seq<Event>)
    requires Inv(sha, w) && Ends(w, e, id)
    ensures id in Known(w)
    ensures var p := At(Known(w)[id]);
            && Over(Run(sha, w, [Backend(e)] + a), id)
            && (NoCrash(a) ==>
                  var v := Run(sha, w, [Backend(e)] + a + [Backend(Unlink(id, p))] + b);
                  Over(v, id) && p !in v.st.files)
  {
    hide Step, Run, Inv, Over, Owned, OwedOrDone;
    EndOwes(sha, w, e, id);
    var p := At(Known(w)[id]);
    RunFirst(sha, w, Backend(e));
    RunConcat(sha, w, [Backend(e)], a);
    var u := Run(sha, w, [Backend(e)] + a);
    GoneStays(sha, Run(sha, w, [Backend(e)]), a, id, p);
    if NoCrash(a) {
      OwedThroughout(sha, Run(sha, w, [Backend(e)]), a, id, p);
      OneStep(sha, w, [Backend(e)] + a, Backend(Unlink(id, p)));
      UnlinkDone(sha, u, id, p);
      OverStays(sha, u, Backend(Unlink(id, p)), id);
      RunConcat(sha, w, [Backend(e)] + a + [Backend(Unlink(id, p))], b);
      GoneStays(sha, Run(sha, w, [Backend(e)] + a + [Backend(Unlink(id, p))]), b, id, p);
    }
  }

  lemma UnlinkDone(sha: Bytes -> string, w: World, id: string, p: Path)
    requires OwedOrDone(w, id, p)
    ensures p !in Step(sha, w, Backend(Unlink(id, p))).st.files
  {
  }
}
