/** Concurrent writers of case notes: what the check before the insert and the unique index keep
    over every interleaving (backend/case_notes/routes.py, backend/models.py). */
module CaseNoteEdits {
  import opened Optional
  import opened CaseNotes

  // ---- a well-formed table is a set of disjoint linear chains ----

  lemma {:induction false} OneEntryPerRevision(t: seq<Entry>, i: nat, j: nat)
    requires WellFormed(t) && i < |t| && j < |t| && Root(t, i) == Root(t, j) && Revision(t, i) == Revision(t, j)
    ensures i == j
  {
    if t[i].corrects.Some? {
      OneEntryPerRevision(t, Prev(t, i), Prev(t, j));
      assert t[i].corrects == t[j].corrects;
    }
  }

  /** Every revision below an entry's own exists in its note. */
  lemma {:induction false} NoGaps(t: seq<Entry>, i: nat, k: nat) returns (j: nat)
    requires WellFormed(t) && i < |t| && 1 <= k <= Revision(t, i)
    ensures j <= i && Root(t, j) == Root(t, i) && Revision(t, j) == k
  {
    if k == Revision(t, i) { j := i; } else { j := NoGaps(t, Prev(t, i), k); }
  }

  predicate HasSuccessor(t: seq<Entry>, i: nat, n: nat)
    requires i < |t| && n <= |t|
  {
    exists j :: 0 <= j < n && Corrects(t, j, i)
  }

  /** The current revision: no entry corrects it. */
  predicate IsTip(t: seq<Entry>, i: nat) { i < |t| && !HasSuccessor(t, i, |t|) }

  lemma {:induction false} TipExists(t: seq<Entry>, i: nat) returns (tip: nat)
    requires WellFormed(t) && i < |t|
    ensures IsTip(t, tip) && Root(t, tip) == Root(t, i) && Revision(t, i) <= Revision(t, tip)
    decreases |t| - i
  {
    if IsTip(t, i) {
      tip := i;
    } else {
      var j :| 0 <= j < |t| && Corrects(t, j, i);
      PrevIs(t, j, i);
      tip := TipExists(t, j);
    }
  }

  lemma {:induction false} TipHasHighest(t: seq<Entry>, tip: nat, i: nat)
    requires WellFormed(t) && i < |t| && IsTip(t, tip) && Root(t, tip) == Root(t, i)
    ensures Revision(t, i) <= Revision(t, tip)
  {
    if Revision(t, i) > Revision(t, tip) {
      var next := NoGaps(t, i, Revision(t, tip) + 1);
      assert Corrects(t, next, Prev(t, next));
      OneEntryPerRevision(t, Prev(t, next), tip);
    }
  }

  /** Entry i is revision k of the note that entry r began. */
  ghost predicate IsRevision(t: seq<Entry>, r: nat, k: nat, i: nat)
    requires WellFormed(t)
  {
    i < |t| && Root(t, i) == r && Revision(t, i) == k
  }

  ghost predicate HasRevision(t: seq<Entry>, r: nat, k: nat)
    requires WellFormed(t)
  {
    exists i: nat :: IsRevision(t, r, k, i)
  }

  /** A note has exactly one current revision, and revisions 1 to that one's number, each once. */
  lemma NoteIsLinear(t: seq<Entry>, r: nat) returns (tip: nat)
    requires WellFormed(t) && r < |t| && t[r].corrects.None?
    ensures IsTip(t, tip) && Root(t, tip) == r
    ensures forall i: nat :: IsTip(t, i) && Root(t, i) == r ==> i == tip
    ensures forall k: nat :: HasRevision(t, r, k) <==> 1 <= k <= Revision(t, tip)
    ensures forall k: nat, i: nat, j: nat :: IsRevision(t, r, k, i) && IsRevision(t, r, k, j) ==> i == j
  {
    hide WellFormed, HasSuccessor;
    tip := TipExists(t, r);
    forall i: nat | IsTip(t, i) && Root(t, i) == r ensures i == tip {
      hide Root, Revision;
      TipHasHighest(t, tip, i);
      TipHasHighest(t, i, tip);
      OneEntryPerRevision(t, i, tip);
    }
    forall k: nat ensures HasRevision(t, r, k) <==> 1 <= k <= Revision(t, tip) {
      hide Root, Revision;
      if 1 <= k <= Revision(t, tip) {
        var i := NoGaps(t, tip, k);
        assert IsRevision(t, r, k, i);
      }
      if i: nat :| IsRevision(t, r, k, i) { TipHasHighest(t, tip, i); }
    }
    forall k: nat, i: nat, j: nat | IsRevision(t, r, k, i) && IsRevision(t, r, k, j) ensures i == j {
      OneEntryPerRevision(t, i, j);
    }
  }

  // ---- appending ----

  /** What the insert accepts: a fresh id, and a correction of an entry of the same incident that
      nothing corrects yet. */
  ghost predicate CanAppend(t: seq<Entry>, e: Entry) {
    && Find(t, e.id).None?
    && (e.corrects.Some? ==>
          && (exists j :: 0 <= j < |t| && t[j].id == e.corrects.value && t[j].incident == e.incident)
          && forall i :: 0 <= i < |t| ==> t[i].corrects != e.corrects)
  }

  lemma AppendWellFormed(t: seq<Entry>, e: Entry)
    requires WellFormed(t) && CanAppend(t, e)
    ensures WellFormed(t + [e])
  {
    var u := t + [e];
    assert DistinctIds(u) by { hide Linked, UniqueCorrects; }
    assert UniqueCorrects(u) by { hide Linked, DistinctIds; }
    forall i | 0 <= i < |u| && u[i].corrects.Some?
      ensures exists j :: 0 <= j < i && Corrects(u, i, j) && u[j].incident == u[i].incident
    {
      hide DistinctIds, UniqueCorrects;
      if i < |t| {
        var j :| 0 <= j < i && Corrects(t, i, j) && t[j].incident == t[i].incident;
        assert Corrects(u, i, j);
      } else {
        var j :| 0 <= j < |t| && t[j].id == e.corrects.value && t[j].incident == e.incident;
        assert Corrects(u, i, j);
      }
    }
    hide DistinctIds, UniqueCorrects;
  }

  /** As the table grows, no entry changes its note, its number or its predecessor. */
  lemma {:induction false} GrowthKeepsChains(t: seq<Entry>, u: seq<Entry>, i: nat)
    requires WellFormed(t) && WellFormed(u) && t <= u && i < |t|
    ensures Root(u, i) == Root(t, i) && Revision(u, i) == Revision(t, i)
  {
    if t[i].corrects.Some? {
      var j := Prev(t, i);
      assert Corrects(u, i, j);
      PrevIs(u, i, j);
      GrowthKeepsChains(t, u, j);
    }
  }

  // ---- interleaved requests ----

  /** A POST that adds a note or, with `corrects`, edits one. */
  datatype Request = Request(incident: string, user: string, admin: bool, corrects: Option<string>)

  datatype Outcome = Proceed | InvalidCorrection | NotAuthor | AlreadyCorrected | Created(id: string)

  predicate Corrected(t: seq<Entry>, c: string) { exists i :: 0 <= i < |t| && t[i].corrects == Some(c) }

  /** The reads before the insert. */
  function Check(t: seq<Entry>, req: Request): (o: Outcome)
    requires WellFormed(t)
    ensures !o.Created?
  {
    match req.corrects
    case None => Proceed
    case Some(c) =>
      var orig := Find(t, c);
      if orig.None? || t[orig.value].incident != req.incident then InvalidCorrection
      else
        RevisionMetaHas(t, req.incident, orig.value);
        if RevisionMeta(t, req.incident, c).value.rootAuthor != req.user && !req.admin then NotAuthor
        else if Corrected(t, c) then AlreadyCorrected
        else Proceed
  }

  lemma CorrectedIs(t: seq<Entry>, i: nat)
    requires i < |t|
    ensures Corrected(t, t[i].id) <==> !IsTip(t, i)
  {
    if Corrected(t, t[i].id) {
      var j :| 0 <= j < |t| && t[j].corrects == Some(t[i].id);
      assert Corrects(t, j, i);
    }
  }

  /** A new note may always proceed; an edit exactly when it names a current revision of its incident
      and comes from the author of that note's first revision or from an admin; each refusal has its
      own cause. */
  lemma CheckExact(t: seq<Entry>, req: Request)
    requires WellFormed(t)
    ensures req.corrects.None? ==> Check(t, req) == Proceed
    ensures req.corrects.Some? ==>
            var i := Find(t, req.corrects.value);
            var known := i.Some? && t[i.value].incident == req.incident;
            && (Check(t, req) == InvalidCorrection <==> !known)
            && (known ==>
                  var mine := t[Root(t, i.value)].author == req.user || req.admin;
                  && (Check(t, req) == NotAuthor <==> !mine)
                  && (Check(t, req) == AlreadyCorrected <==> mine && !IsTip(t, i.value))
                  && (Check(t, req) == Proceed <==> mine && IsTip(t, i.value)))
  {
    hide WellFormed, RevisionMeta, Corrected, IsTip, Root;
    if req.corrects.Some? {
      var i := Find(t, req.corrects.value);
      if i.Some? && t[i.value].incident == req.incident {
        RevisionMetaHas(t, req.incident, i.value);
        CorrectedIs(t, i.value);
      }
    }
  }

  /** Requests that passed their check, answers given, and which entries an admin saved. */
  datatype Desk = Desk(notes: seq<Entry>, pending: map<nat, Request>, answers: map<nat, (Request, Outcome)>,
      byAdmin: set<string>)

  datatype Event = Arrive(r: nat, req: Request) | Save(r: nat, id: string, now: int) | Fail(r: nat)

  function Answer(d: Desk, r: nat, o: Outcome): Desk
    requires r in d.pending
  {
    d.(pending := d.pending - {r}, answers := d.answers[r := (d.pending[r], o)])
  }

  /** The insert: refused by the unique index when another correction was committed first. */
  function Insert(d: Desk, r: nat, id: string, now: int): Desk
    requires r in d.pending
  {
    var req := d.pending[r];
    if req.corrects.Some? && Corrected(d.notes, req.corrects.value) then Answer(d, r, AlreadyCorrected)
    else
      Answer(d, r, Created(id)).(notes := d.notes + [Entry(id, req.incident, req.user, now, req.corrects)],
                                 byAdmin := if req.admin then d.byAdmin + {id} else d.byAdmin)
  }

  ghost function Step(d: Desk, e: Event): Desk
    requires WellFormed(d.notes)
  {
    match e
    case Arrive(r, req) =>
      if r in d.pending || r in d.answers then d
      else if Check(d.notes, req).Proceed? then d.(pending := d.pending[r := req])
      else d.(answers := d.answers[r := (req, Check(d.notes, req))])
    case Save(r, id, now) => if r in d.pending && Find(d.notes, id).None? then Insert(d, r, id, now) else d
    case Fail(r) => d.(pending := d.pending - {r})
  }

  /** A later revision is by the note's author or was saved by an admin. */
  ghost predicate Authored(d: Desk)
    requires WellFormed(d.notes)
  {
    forall i :: 0 <= i < |d.notes| ==>
      d.notes[i].author == d.notes[Root(d.notes, i)].author || d.notes[i].id in d.byAdmin
  }

  /** A pending edit names an entry of its incident, and its user may edit that note. */
  ghost predicate Allowed(t: seq<Entry>, req: Request)
    requires WellFormed(t)
  {
    req.corrects.Some? ==>
      var i := Find(t, req.corrects.value);
      i.Some? && t[i.value].incident == req.incident && (req.admin || t[Root(t, i.value)].author == req.user)
  }

  predicate IsSaved(t: seq<Entry>, req: Request, id: string) {
    Find(t, id).Some? && t[Find(t, id).value].corrects == req.corrects && t[Find(t, id).value].author == req.user
  }

  /** Each successful answer has its own entry. */
  ghost predicate Answered(d: Desk) {
    && (forall r :: r in d.answers && d.answers[r].1.Created? ==> IsSaved(d.notes, d.answers[r].0, d.answers[r].1.id))
    && (forall r, s :: r in d.answers && s in d.answers && r != s && d.answers[r].1.Created? && d.answers[s].1.Created?
          ==> d.answers[r].1.id != d.answers[s].1.id)
    && (forall r :: r in d.pending ==> r !in d.answers)
  }

  ghost predicate Inv(d: Desk) {
    WellFormed(d.notes) && Authored(d) && Answered(d) && forall r :: r in d.pending ==> Allowed(d.notes, d.pending[r])
  }

  lemma {:induction false} FindGrows(t: seq<Entry>, u: seq<Entry>, id: string)
    requires t <= u && DistinctIds(u) && Find(t, id).Some?
    ensures Find(u, id) == Find(t, id)
  {
    FindIs(u, Find(t, id).value);
  }

  lemma AllowedGrows(t: seq<Entry>, u: seq<Entry>, req: Request)
    requires WellFormed(t) && WellFormed(u) && t <= u && Allowed(t, req)
    ensures Allowed(u, req)
  {
    hide Linked, UniqueCorrects;
    if req.corrects.Some? {
      FindGrows(t, u, req.corrects.value);
      GrowthKeepsChains(t, u, Find(t, req.corrects.value).value);
    }
  }

  lemma CheckAllows(t: seq<Entry>, req: Request)
    requires WellFormed(t) && Check(t, req).Proceed?
    ensures Allowed(t, req)
  {
    hide WellFormed, RevisionMeta;
    if req.corrects.Some? { RevisionMetaHas(t, req.incident, Find(t, req.corrects.value).value); }
  }

  function NewEntry(req: Request, id: string, now: int): Entry { Entry(id, req.incident, req.user, now, req.corrects) }

  /** The last entry is what was asked for: a current revision, the first of a new note or the next
      one of the note it edits, whose revision it replaces. */
  ghost predicate Stands(t: seq<Entry>, u: seq<Entry>, req: Request, id: string, now: int)
    requires WellFormed(t)
  {
    && WellFormed(u) && u == t + [Entry(id, req.incident, req.user, now, req.corrects)] && IsTip(u, |t|)
    && (req.corrects.None? ==> Root(u, |t|) == |t| && Revision(u, |t|) == 1)
    && (req.corrects.Some? ==>
          && Find(t, req.corrects.value).Some?
          && var j := Find(t, req.corrects.value).value;
             IsTip(t, j) && !IsTip(u, j) && Root(u, |t|) == Root(t, j) && Revision(u, |t|) == Revision(t, j) + 1)
  }

  lemma NobodyNames(t: seq<Entry>, id: string)
    requires WellFormed(t) && Find(t, id).None?
    ensures forall i :: 0 <= i < |t| ==> t[i].corrects != Some(id)
  {
    forall i | 0 <= i < |t| && t[i].corrects.Some? ensures t[i].corrects != Some(id) {
      assert Corrects(t, i, Prev(t, i));
    }
  }

  lemma AppendStands(t: seq<Entry>, req: Request, id: string, now: int)
    requires WellFormed(t) && CanAppend(t, NewEntry(req, id, now))
    ensures Stands(t, t + [NewEntry(req, id, now)], req, id, now)
  {
    var e := NewEntry(req, id, now);
    var u := t + [e];
    AppendWellFormed(t, e);
    NobodyNames(t, id);
    hide Linked, UniqueCorrects;
    assert !HasSuccessor(u, |t|, |u|);
    if req.corrects.Some? {
      var j := Find(t, req.corrects.value).value;
      assert !HasSuccessor(t, j, |t|);
      assert Corrects(u, |t|, j);
      PrevIs(u, |t|, j);
      GrowthKeepsChains(t, u, j);
    }
  }

  ghost predicate Inserts(d: Desk, r: nat, id: string) {
    r in d.pending && Find(d.notes, id).None?
    && !(d.pending[r].corrects.Some? && Corrected(d.notes, d.pending[r].corrects.value))
  }

  lemma InsertFits(d: Desk, r: nat, id: string, now: int)
    requires Inv(d) && Inserts(d, r, id)
    ensures CanAppend(d.notes, NewEntry(d.pending[r], id, now))
  {
    hide WellFormed, Authored, Answered;
  }

  lemma InsertTable(d: Desk, r: nat, id: string, now: int)
    requires Inv(d) && Inserts(d, r, id)
    ensures WellFormed(d.notes + [NewEntry(d.pending[r], id, now)])
    ensures Authored(Insert(d, r, id, now))
  {
    hide Linked, UniqueCorrects, Answered, CanAppend, Corrected;
    var req, e := d.pending[r], NewEntry(d.pending[r], id, now);
    var t, u := d.notes, d.notes + [e];
    InsertFits(d, r, id, now);
    AppendWellFormed(t, e);
    forall i | 0 <= i < |u| ensures u[i].author == u[Root(u, i)].author || u[i].id in Insert(d, r, id, now).byAdmin {
      if i < |t| {
        GrowthKeepsChains(t, u, i);
      } else if req.corrects.Some? && !req.admin {
        var j := Find(t, req.corrects.value).value;
        PrevIs(u, i, j);
        GrowthKeepsChains(t, u, j);
      }
    }
  }

  lemma InsertAnswers(d: Desk, r: nat, id: string, now: int)
    requires Inv(d) && Inserts(d, r, id)
    ensures Answered(Insert(d, r, id, now))
  {
    hide Linked, UniqueCorrects, Authored, Allowed, Find;
    InsertTable(d, r, id, now);
    var t, u := d.notes, Insert(d, r, id, now).notes;
    var v := Insert(d, r, id, now);
    FindIs(u, |t|);
    forall s | s in v.answers && v.answers[s].1.Created?
      ensures IsSaved(u, v.answers[s].0, v.answers[s].1.id) && (s != r ==> v.answers[s].1.id != id)
    {
      if s != r { FindGrows(t, u, v.answers[s].1.id); }
    }
  }

  /** An answer that created nothing adds no entry to account for. */
  lemma RefusalAnswered(d: Desk, v: Desk, r: nat, req: Request, o: Outcome)
    requires Answered(d) && v.notes == d.notes && v.answers == d.answers[r := (req, o)] && !o.Created?
    requires r !in d.answers && r !in v.pending && v.pending.Keys <= d.pending.Keys
    ensures Answered(v)
  {
    hide IsSaved;
  }

  lemma ArriveKeeps(d: Desk, r: nat, req: Request)
    requires Inv(d)
    ensures Inv(Step(d, Arrive(r, req))) && d.notes == Step(d, Arrive(r, req)).notes
  {
    hide WellFormed, Allowed, Find, Check, Corrected, RevisionMeta, IsSaved, Authored;
    var v := Step(d, Arrive(r, req));
    if Check(d.notes, req).Proceed? { CheckAllows(d.notes, req); }
    SameTable(d, v);
    if v.answers != d.answers {
      RefusalAnswered(d, v, r, req, Check(d.notes, req));
      hide Answered;
      assert v.pending == d.pending;
    }
  }

  lemma SameTable(d: Desk, v: Desk)
    requires WellFormed(d.notes) && Authored(d) && v.notes == d.notes && v.byAdmin == d.byAdmin
    ensures Authored(v)
  {
    hide WellFormed;
  }

  lemma RefusedKeeps(d: Desk, r: nat, id: string, now: int)
    requires Inv(d) && !Inserts(d, r, id)
    ensures Inv(Step(d, Save(r, id, now))) && d.notes == Step(d, Save(r, id, now)).notes
  {
    hide WellFormed, Allowed, Corrected;
  }

  lemma InsertKeeps(d: Desk, r: nat, id: string, now: int)
    requires Inv(d) && Inserts(d, r, id)
    ensures Inv(Step(d, Save(r, id, now))) && d.notes <= Step(d, Save(r, id, now)).notes
  {
    hide Answered, Authored, WellFormed;
    var v := Insert(d, r, id, now);
    InsertTable(d, r, id, now);
    InsertAnswers(d, r, id, now);
    assert v.pending == d.pending - {r};
    forall s | s in v.pending ensures Allowed(v.notes, v.pending[s]) {
      AllowedGrows(d.notes, v.notes, v.pending[s]);
    }
    hide WellFormed, Allowed, Answered, Authored, Find, Corrected;
  }

  /** Every step keeps the table well formed and only appends to it. */
  lemma StepKeeps(d: Desk, e: Event)
    requires Inv(d)
    ensures Inv(Step(d, e)) && d.notes <= Step(d, e).notes
  {
    match e
    case Arrive(r, req) => ArriveKeeps(d, r, req);
    case Fail(_) => hide WellFormed, Allowed;
    case Save(r, id, now) =>
      hide WellFormed, Inv, Step;
      if Inserts(d, r, id) { InsertKeeps(d, r, id, now); } else { RefusedKeeps(d, r, id, now); }
  }

  ghost function Run(d: Desk, es: seq<Event>): (v: Desk)
    requires Inv(d)
    ensures Inv(v) && d.notes <= v.notes
  {
    if es == [] then d
    else
      var u := Run(d, es[..|es| - 1]);
      StepKeeps(u, es[|es| - 1]);
      Step(u, es[|es| - 1])
  }

  lemma OwnEntry(v: Desk, r: nat) returns (i: nat)
    requires Inv(v) && r in v.answers && v.answers[r].1.Created?
    ensures i < |v.notes| && v.notes[i].id == v.answers[r].1.id && v.notes[i].corrects == v.answers[r].0.corrects
  {
    hide WellFormed, Authored, Allowed;
    i := Find(v.notes, v.answers[r].1.id).value;
  }

  lemma OneCorrection(t: seq<Entry>, i: nat, j: nat)
    requires UniqueCorrects(t) && i < |t| && j < |t| && t[i].corrects == t[j].corrects != None
    ensures i == j
  {
  }

  lemma TwoCannotWin(v: Desk, r: nat, s: nat)
    requires Inv(v) && r != s && r in v.answers && s in v.answers
    requires v.answers[r].0.corrects == v.answers[s].0.corrects != None
    ensures !(v.answers[r].1.Created? && v.answers[s].1.Created?)
  {
    hide Linked, Authored, Allowed, DistinctIds, IsSaved, UniqueCorrects;
    if v.answers[r].1.Created? && v.answers[s].1.Created? {
      var i := OwnEntry(v, r);
      var j := OwnEntry(v, s);
      OneCorrection(v.notes, i, j);
    }
  }

  /** Of any number of edits of one revision, over any run, at most one is answered with a new entry. */
  lemma OneWinner(d: Desk, es: seq<Event>, r: nat, s: nat)
    requires Inv(d) && r != s
    requires r in Run(d, es).answers && s in Run(d, es).answers
    requires Run(d, es).answers[r].0.corrects == Run(d, es).answers[s].0.corrects != None
    ensures !(Run(d, es).answers[r].1.Created? && Run(d, es).answers[s].1.Created?)
  {
    hide Inv;
    TwoCannotWin(Run(d, es), r, s);
  }

  /** And once one of them reaches the insert, exactly one entry corrects that revision, with the
      next number in the same note; the request that got there first is the one that succeeds. */
  lemma RaceDecided(d: Desk, r: nat, id: string, now: int, c: nat) returns (k: nat)
    requires Inv(d) && r in d.pending && Find(d.notes, id).None? && c < |d.notes|
    requires d.pending[r].corrects == Some(d.notes[c].id)
    ensures var t := Step(d, Save(r, id, now)).notes;
            && WellFormed(t) && k < |t| && Corrects(t, k, c)
            && (forall i: nat :: i < |t| && Corrects(t, i, c) ==> i == k)
            && Root(t, k) == Root(t, c) && Revision(t, k) == Revision(t, c) + 1
    ensures var o := Step(d, Save(r, id, now)).answers[r].1;
            if Corrected(d.notes, d.notes[c].id) then o == AlreadyCorrected else o == Created(id) && k == |d.notes|
  {
    hide Linked, Authored, Answered, Allowed;
    StepKeeps(d, Save(r, id, now));
    var t := Step(d, Save(r, id, now)).notes;
    if Corrected(d.notes, d.notes[c].id) {
      k :| 0 <= k < |t| && t[k].corrects == Some(t[c].id);
    } else {
      k := |d.notes|;
    }
    assert Corrects(t, k, c);
    PrevIs(t, k, c);
  }

  /** A request that reaches its insert with a fresh id is answered: with its entry, unless it edits a
      revision that is no longer current. */
  lemma SaveDecides(d: Desk, r: nat, id: string, now: int)
    requires Inv(d) && r in d.pending && Find(d.notes, id).None?
    ensures var req, v := d.pending[r], Step(d, Save(r, id, now));
            var late := req.corrects.Some? && !IsTip(d.notes, Find(d.notes, req.corrects.value).value);
            && r !in v.pending && v.answers == d.answers[r := (req, if late then AlreadyCorrected else Created(id))]
            && (late ==> v.notes == d.notes) && (!late ==> Stands(d.notes, v.notes, req, id, now))
  {
    hide Linked, UniqueCorrects, Authored, Answered, IsTip, Root, Revision, Stands, CanAppend;
    var req := d.pending[r];
    if req.corrects.Some? { CorrectedIs(d.notes, Find(d.notes, req.corrects.value).value); }
    if Inserts(d, r, id) {
      InsertFits(d, r, id, now);
      AppendStands(d.notes, req, id, now);
    }
  }

  /** Undisturbed, a request is answered as the check decides: a new note always gets its entry. */
  lemma RequestAlone(d: Desk, r: nat, req: Request, id: string, now: int)
    requires Inv(d) && r !in d.pending && r !in d.answers && Find(d.notes, id).None?
    ensures var c, u := Check(d.notes, req), Step(d, Arrive(r, req));
            && u.notes == d.notes && Inv(u)
            && var v := Step(u, Save(r, id, now));
               && v.pending == d.pending
               && v.answers == d.answers[r := (req, if c.Proceed? then Created(id) else c)]
               && (if c.Proceed? then Stands(d.notes, v.notes, req, id, now) else v.notes == d.notes)
    ensures req.corrects.None? ==> Check(d.notes, req).Proceed?
  {
    hide WellFormed, Authored, Answered, Stands, RevisionMeta, Corrected, IsTip;
    ArriveKeeps(d, r, req);
    CheckExact(d.notes, req);
    var u := Step(d, Arrive(r, req));
    if r in u.pending {
      SaveDecides(u, r, id, now);
      assert Step(u, Save(r, id, now)).pending == d.pending;
    }
  }

  /** From an empty table, after any run: one chain per note, one current revision each, and
      every later revision saved by the note's author or an admin. */
  lemma EveryRun(es: seq<Event>)
    ensures Inv(Desk([], map[], map[], {}))
    ensures var v := Run(Desk([], map[], map[], {}), es);
            && WellFormed(v.notes) && Authored(v)
            && forall inc: string, i: nat :: i < |v.notes| && v.notes[i].incident == inc ==>
                 RevisionMeta(v.notes, inc, v.notes[i].id) == Some(MetaOf(v.notes, i))
  {
    var d := Desk([], map[], map[], {});
    assert WellFormed(d.notes);
    var v := Run(d, es);
    forall inc: string, i: nat | i < |v.notes| && v.notes[i].incident == inc
      ensures RevisionMeta(v.notes, inc, v.notes[i].id) == Some(MetaOf(v.notes, i))
    {
      RevisionMetaHas(v.notes, inc, i);
    }
  }

  // ---- one request on its own ----

  /** The table as create_case_note changes it when nothing comes between its reads and its insert. */
  class CaseNoteTable {
    var notes: seq<Entry>

    constructor ()
      ensures notes == [] && WellFormed(notes)
    {
      notes := [];
    }

    method Create(req: Request, id: string, now: int) returns (o: Outcome)
      requires WellFormed(notes) && Find(notes, id).None?
      modifies this
      ensures WellFormed(notes)
      ensures req.corrects.None? ==> o == Created(id)
      ensures Check(old(notes), req).Proceed? ==> o == Created(id) && Stands(old(notes), notes, req, id, now)
      ensures !Check(old(notes), req).Proceed? ==> o == Check(old(notes), req) && notes == old(notes)
    {
      match req.corrects {
        case None =>
        case Some(c) =>
          var orig := Find(notes, c);
          if orig.None? || notes[orig.value].incident != req.incident { return InvalidCorrection; }
          RevisionMetaHas(notes, req.incident, orig.value);
          if RevisionMeta(notes, req.incident, c).value.rootAuthor != req.user && !req.admin { return NotAuthor; }
          if Corrected(notes, c) { return AlreadyCorrected; }
      }
      AppendStands(notes, req, id, now);
      notes := notes + [NewEntry(req, id, now)];
      o := Created(id);
    }
  }
}
