/** Case notes as chains of append-only revisions: the edit rule with its unique index, and the
    recursive query that computes root and revision (backend/case_notes/routes.py,
    backend/case_notes/chain.py). */
module CaseNotes {
  import opened Optional

  /** A row of case_notes: `corrects` names the revision it replaces; `created` in microseconds. */
  datatype Entry = Entry(id: string, incident: string, author: string, created: int, corrects: Option<string>)

  /** What the recursive query yields for an entry. */
  datatype Meta = Meta(id: string, root: string, revision: nat, rootAuthor: string)

  // ---- the stored table ----

  predicate DistinctIds(t: seq<Entry>) { forall i, j :: 0 <= i < j < |t| ==> t[i].id != t[j].id }

  /** The index over corrects_id: at most one entry corrects any given one. */
  predicate UniqueCorrects(t: seq<Entry>) {
    forall i, j :: 0 <= i < j < |t| && t[i].corrects.Some? ==> t[i].corrects != t[j].corrects
  }

  predicate Corrects(t: seq<Entry>, i: nat, j: nat)
    requires i < |t| && j < |t|
  {
    t[i].corrects == Some(t[j].id)
  }

  /** A correction names an earlier entry of its own incident. */
  ghost predicate Linked(t: seq<Entry>) {
    forall i :: 0 <= i < |t| && t[i].corrects.Some? ==>
      exists j :: 0 <= j < i && Corrects(t, i, j) && t[j].incident == t[i].incident
  }

  ghost predicate WellFormed(t: seq<Entry>) { DistinctIds(t) && UniqueCorrects(t) && Linked(t) }

  /** The entry with a given id. */
  function Find(t: seq<Entry>, id: string): (r: Option<nat>)
    ensures r.Some? ==> r.value < |t| && t[r.value].id == id
    ensures r.None? ==> forall i :: 0 <= i < |t| ==> t[i].id != id
  {
    if t == [] then None
    else if t[|t| - 1].id == id then Some(|t| - 1)
    else Find(t[..|t| - 1], id)
  }

  lemma FindIs(t: seq<Entry>, i: nat)
    requires DistinctIds(t) && i < |t|
    ensures Find(t, t[i].id) == Some(i)
  {
  }

  // ---- following the links ----

  /** The entry that entry i corrects. */
  ghost function Prev(t: seq<Entry>, i: nat): (j: nat)
    requires WellFormed(t) && i < |t| && t[i].corrects.Some?
    ensures j < i && Corrects(t, i, j) && t[j].incident == t[i].incident
  {
    var j :| 0 <= j < i && Corrects(t, i, j) && t[j].incident == t[i].incident; j
  }

  ghost function Root(t: seq<Entry>, i: nat): (r: nat)
    requires WellFormed(t) && i < |t|
    ensures r <= i && t[r].corrects.None? && t[r].incident == t[i].incident
    ensures t[i].corrects.None? ==> r == i
  {
    if t[i].corrects.None? then i else Root(t, Prev(t, i))
  }

  ghost function Revision(t: seq<Entry>, i: nat): (k: nat)
    requires WellFormed(t) && i < |t|
    ensures 1 <= k <= i + 1 && (k == 1 <==> t[i].corrects.None?)
  {
    if t[i].corrects.None? then 1 else Revision(t, Prev(t, i)) + 1
  }

  ghost function MetaOf(t: seq<Entry>, i: nat): Meta
    requires WellFormed(t) && i < |t|
  {
    Meta(t[i].id, t[Root(t, i)].id, Revision(t, i), t[Root(t, i)].author)
  }

  lemma PrevIs(t: seq<Entry>, i: nat, j: nat)
    requires WellFormed(t) && i < |t| && j < |t| && Corrects(t, i, j)
    ensures Prev(t, i) == j
  {
  }

  // ---- the recursive query ----

  /** Its first part: the entries of the incident that correct nothing. */
  function Base(t: seq<Entry>, inc: string): seq<Meta> {
    if t == [] then []
    else
      var n := |t| - 1;
      Base(t[..n], inc) + if t[n].incident == inc && t[n].corrects.None?
          then [Meta(t[n].id, t[n].id, 1, t[n].author)] else []
  }

  /** The rows of `work` that an entry corrects, each extended by it. */
  function Extend(e: Entry, work: seq<Meta>): seq<Meta> {
    if work == [] then []
    else
      var w := work[|work| - 1];
      Extend(e, work[..|work| - 1]) + if e.corrects == Some(w.id)
          then [Meta(e.id, w.root, w.revision + 1, w.rootAuthor)] else []
  }

  /** Its recursive part: the working table joined with case_notes on corrects_id. */
  function Next(t: seq<Entry>, work: seq<Meta>): seq<Meta> {
    if t == [] then [] else Next(t[..|t| - 1], work) + Extend(t[|t| - 1], work)
  }

  function Level(t: seq<Entry>, inc: string, k: nat): seq<Meta> {
    if k == 0 then Base(t, inc) else Next(t, Level(t, inc, k - 1))
  }

  /** The entries of an incident at a revision, in table order, with their root and root author. */
  ghost function AtRevision(t: seq<Entry>, n: nat, inc: string, k: nat): seq<Meta>
    requires WellFormed(t) && n <= |t|
  {
    if n == 0 then []
    else AtRevision(t, n - 1, inc, k) +
         if t[n - 1].incident == inc && Revision(t, n - 1) == k then [MetaOf(t, n - 1)] else []
  }

  lemma {:induction false} BaseIs(t: seq<Entry>, n: nat, inc: string)
    requires WellFormed(t) && n <= |t|
    ensures Base(t[..n], inc) == AtRevision(t, n, inc, 1)
  {
    if n > 0 {
      assert t[..n][..n - 1] == t[..n - 1];
      BaseIs(t, n - 1, inc);
    }
  }

  lemma ExtendSnoc(e: Entry, rest: seq<Meta>, w: Meta)
    ensures Extend(e, rest + [w])
         == Extend(e, rest)
            + if e.corrects == Some(w.id) then [Meta(e.id, w.root, w.revision + 1, w.rootAuthor)] else []
  {
    assert (rest + [w])[..|rest + [w]| - 1] == rest;
  }

  lemma MetaStep(t: seq<Entry>, i: nat, j: nat)
    requires WellFormed(t) && i < |t| && j < |t| && t[i].corrects.Some?
    ensures t[i].corrects == Some(t[j].id) <==> Prev(t, i) == j
    ensures Prev(t, i) == j ==>
      && t[i].incident == t[j].incident && Revision(t, i) == Revision(t, j) + 1
      && MetaOf(t, i) == Meta(t[i].id, MetaOf(t, j).root, MetaOf(t, j).revision + 1, MetaOf(t, j).rootAuthor)
  {
    if Corrects(t, i, j) { PrevIs(t, i, j); }
  }

  /** Of the entries below n at revision k, entry i extends the one it corrects, if it is there. */
  ghost predicate Extends(t: seq<Entry>, i: nat, n: nat, inc: string, k: nat)
    requires WellFormed(t) && i < |t| && n <= |t|
  {
    t[i].corrects.Some? && Prev(t, i) < n && t[i].incident == inc && Revision(t, i) == k + 1
  }

  ghost predicate InLevel(t: seq<Entry>, j: nat, inc: string, k: nat)
    requires WellFormed(t) && j < |t|
  {
    t[j].incident == inc && Revision(t, j) == k
  }

  lemma AtRevisionStep(t: seq<Entry>, n: nat, inc: string, k: nat)
    requires WellFormed(t) && 0 < n <= |t|
    ensures InLevel(t, n - 1, inc, k) ==> AtRevision(t, n, inc, k) == AtRevision(t, n - 1, inc, k) + [MetaOf(t, n - 1)]
    ensures !InLevel(t, n - 1, inc, k) ==> AtRevision(t, n, inc, k) == AtRevision(t, n - 1, inc, k)
    ensures InLevel(t, n - 1, inc, k) ==> MetaOf(t, n - 1).revision == k && MetaOf(t, n - 1).id == t[n - 1].id
  {
    hide WellFormed;
  }

  lemma ExtendsSplit(t: seq<Entry>, i: nat, n: nat, inc: string, k: nat)
    requires WellFormed(t) && i < |t| && 0 < n <= |t|
    ensures Extends(t, i, n, inc, k) <==>
      Extends(t, i, n - 1, inc, k) || (InLevel(t, n - 1, inc, k) && t[i].corrects == Some(t[n - 1].id))
    ensures InLevel(t, n - 1, inc, k) && t[i].corrects == Some(t[n - 1].id) ==>
      && !Extends(t, i, n - 1, inc, k)
      && MetaOf(t, i) == Meta(t[i].id, MetaOf(t, n - 1).root, k + 1, MetaOf(t, n - 1).rootAuthor)
  {
    if t[i].corrects.Some? { MetaStep(t, i, n - 1); }
    hide WellFormed;
  }

  lemma ExtendNone(t: seq<Entry>, i: nat, inc: string, k: nat)
    requires WellFormed(t) && i < |t|
    ensures Extend(t[i], AtRevision(t, 0, inc, k)) == [] && !Extends(t, i, 0, inc, k)
  {
  }

  lemma {:induction false} ExtendIs(t: seq<Entry>, i: nat, n: nat, inc: string, k: nat)
    requires WellFormed(t) && i < |t| && n <= |t|
    ensures Extend(t[i], AtRevision(t, n, inc, k)) == if Extends(t, i, n, inc, k) then [MetaOf(t, i)] else []
  {
    hide *;
    if n == 0 {
      ExtendNone(t, i, inc, k);
    } else {
      ExtendIs(t, i, n - 1, inc, k);
      ExtendsSplit(t, i, n, inc, k);
      AtRevisionStep(t, n, inc, k);
      if InLevel(t, n - 1, inc, k) { ExtendSnoc(t[i], AtRevision(t, n - 1, inc, k), MetaOf(t, n - 1)); }
    }
  }

  lemma {:induction false} NextIs(t: seq<Entry>, n: nat, inc: string, k: nat)
    requires WellFormed(t) && n <= |t| && k >= 1
    ensures Next(t[..n], AtRevision(t, |t|, inc, k)) == AtRevision(t, n, inc, k + 1)
  {
    if n > 0 {
      assert t[..n][..n - 1] == t[..n - 1];
      NextIs(t, n - 1, inc, k);
      ExtendIs(t, n - 1, |t|, inc, k);
    }
  }

  /** Round k of the recursive query yields exactly the entries of revision k + 1, each once. */
  lemma {:induction false} LevelIs(t: seq<Entry>, inc: string, k: nat)
    requires WellFormed(t)
    ensures Level(t, inc, k) == AtRevision(t, |t|, inc, k + 1)
  {
    assert t[..|t|] == t;
    if k == 0 {
      BaseIs(t, |t|, inc);
    } else {
      LevelIs(t, inc, k - 1);
      NextIs(t, |t|, inc, k);
    }
  }

  lemma {:induction false} LateRevisionsEmpty(t: seq<Entry>, n: nat, inc: string, k: nat)
    requires WellFormed(t) && n <= |t| && k > n
    ensures AtRevision(t, n, inc, k) == []
  {
    if n > 0 { LateRevisionsEmpty(t, n - 1, inc, k); }
  }

  lemma RoundsEnd(t: seq<Entry>, inc: string)
    requires WellFormed(t)
    ensures Level(t, inc, |t|) == []
  {
    LevelIs(t, inc, |t|);
    LateRevisionsEmpty(t, |t|, inc, |t| + 1);
  }

  /** chain_cte, evaluated until the working table is empty; it ends within |t| rounds. */
  function ChainFrom(t: seq<Entry>, inc: string, k: nat): seq<Meta>
    requires WellFormed(t) && k <= |t|
    decreases |t| - k
  {
    if Level(t, inc, k) == [] then []
    else
      RoundsEnd(t, inc);
      Level(t, inc, k) + ChainFrom(t, inc, k + 1)
  }

  function Chain(t: seq<Entry>, inc: string): seq<Meta>
    requires WellFormed(t)
  {
    ChainFrom(t, inc, 0)
  }

  lemma {:induction false} AtRevisionHas(t: seq<Entry>, n: nat, inc: string, k: nat, i: nat)
    requires WellFormed(t) && i < n <= |t| && InLevel(t, i, inc, k)
    ensures MetaOf(t, i) in AtRevision(t, n, inc, k)
  {
    hide WellFormed, MetaOf, Revision;
    if i < n - 1 { AtRevisionHas(t, n - 1, inc, k, i); }
  }

  lemma {:induction false} AtRevisionAt(t: seq<Entry>, n: nat, inc: string, k: nat, a: nat) returns (i: nat)
    requires WellFormed(t) && n <= |t| && a < |AtRevision(t, n, inc, k)|
    ensures i < n && InLevel(t, i, inc, k) && AtRevision(t, n, inc, k)[a] == MetaOf(t, i)
  {
    hide WellFormed, MetaOf, Revision;
    if a < |AtRevision(t, n - 1, inc, k)| { i := AtRevisionAt(t, n - 1, inc, k, a); } else { i := n - 1; }
  }

  lemma MetaIds(t: seq<Entry>, i: nat, j: nat)
    requires WellFormed(t) && i < |t| && j < |t| && i != j
    ensures MetaOf(t, i).id != MetaOf(t, j).id
  {
    hide Linked, Revision, Root, UniqueCorrects;
  }

  /** Within a round no entry comes twice. */
  lemma {:induction false} AtRevisionOnce(t: seq<Entry>, n: nat, inc: string, k: nat, a: nat, b: nat)
    requires WellFormed(t) && n <= |t| && a < b < |AtRevision(t, n, inc, k)|
    ensures AtRevision(t, n, inc, k)[a].id != AtRevision(t, n, inc, k)[b].id
  {
    hide WellFormed, MetaOf, Revision;
    var rest := AtRevision(t, n - 1, inc, k);
    if b < |rest| {
      AtRevisionOnce(t, n - 1, inc, k, a, b);
    } else {
      var i := AtRevisionAt(t, n - 1, inc, k, a);
      MetaIds(t, i, n - 1);
    }
  }

  lemma {:induction false} NextOfNothing(t: seq<Entry>)
    ensures Next(t, []) == []
  {
    if t != [] { NextOfNothing(t[..|t| - 1]); }
  }

  /** After an empty round no later revision exists. */
  lemma {:induction false} RoundsStayEmpty(t: seq<Entry>, inc: string, k: nat, l: nat)
    requires Level(t, inc, k) == [] && k <= l
    ensures Level(t, inc, l) == []
  {
    if k < l {
      RoundsStayEmpty(t, inc, k, l - 1);
      NextOfNothing(t);
    }
  }

  lemma {:induction false} ChainHasLevel(t: seq<Entry>, inc: string, k: nat, l: nat, m: Meta)
    requires WellFormed(t) && k <= l && k <= |t| && m in Level(t, inc, l)
    ensures m in ChainFrom(t, inc, k)
    decreases |t| - k
  {
    hide WellFormed, Level;
    RoundsEnd(t, inc);
    if Level(t, inc, k) == [] { RoundsStayEmpty(t, inc, k, l); }
    if k < l { ChainHasLevel(t, inc, k + 1, l, m); }
  }

  lemma ChainHas(t: seq<Entry>, inc: string, i: nat)
    requires WellFormed(t) && i < |t| && t[i].incident == inc
    ensures MetaOf(t, i) in Chain(t, inc)
  {
    hide WellFormed, MetaOf, Revision, Level, AtRevision, ChainFrom;
    var l := Revision(t, i) - 1;
    LevelIs(t, inc, l);
    AtRevisionHas(t, |t|, inc, l + 1, i);
    ChainHasLevel(t, inc, 0, l, MetaOf(t, i));
  }

  lemma {:induction false} ChainAt(t: seq<Entry>, inc: string, k: nat, a: nat) returns (i: nat)
    requires WellFormed(t) && k <= |t| && a < |ChainFrom(t, inc, k)|
    ensures i < |t| && t[i].incident == inc && Revision(t, i) > k && ChainFrom(t, inc, k)[a] == MetaOf(t, i)
    decreases |t| - k
  {
    hide WellFormed, MetaOf, Revision, Level;
    LevelIs(t, inc, k);
    RoundsEnd(t, inc);
    var work := Level(t, inc, k);
    if a < |work| { i := AtRevisionAt(t, |t|, inc, k + 1, a); } else { i := ChainAt(t, inc, k + 1, a - |work|); }
  }

  lemma ChainStep(t: seq<Entry>, inc: string, k: nat)
    requires WellFormed(t) && k <= |t| && ChainFrom(t, inc, k) != []
    ensures k < |t| && Level(t, inc, k) == AtRevision(t, |t|, inc, k + 1)
    ensures ChainFrom(t, inc, k) == Level(t, inc, k) + ChainFrom(t, inc, k + 1)
  {
    hide WellFormed, Level, AtRevision;
    LevelIs(t, inc, k);
    RoundsEnd(t, inc);
  }

  predicate OncePerId(rows: seq<Meta>) { forall a, b :: 0 <= a < b < |rows| ==> rows[a].id != rows[b].id }

  lemma ConcatOnce(rows: seq<Meta>, more: seq<Meta>)
    requires OncePerId(rows) && OncePerId(more)
    requires forall a, b :: 0 <= a < |rows| && 0 <= b < |more| ==> rows[a].id != more[b].id
    ensures OncePerId(rows + more)
  {
  }

  lemma LevelsApart(t: seq<Entry>, inc: string, k: nat, a: nat, b: nat)
    requires WellFormed(t) && k < |t| && a < |AtRevision(t, |t|, inc, k + 1)| && b < |ChainFrom(t, inc, k + 1)|
    ensures AtRevision(t, |t|, inc, k + 1)[a].id != ChainFrom(t, inc, k + 1)[b].id
  {
    var i := AtRevisionAt(t, |t|, inc, k + 1, a);
    var j := ChainAt(t, inc, k + 1, b);
    hide WellFormed, MetaOf, Revision, Root, Level, AtRevision, ChainFrom;
    MetaIds(t, i, j);
  }

  lemma {:induction false} ChainOnce(t: seq<Entry>, inc: string, k: nat)
    requires WellFormed(t) && k <= |t|
    ensures OncePerId(ChainFrom(t, inc, k))
    decreases |t| - k
  {
    hide *;
    var all := ChainFrom(t, inc, k);
    if all == [] {
      OnceIs(all);
    } else {
      ChainStep(t, inc, k);
      var work, later := Level(t, inc, k), ChainFrom(t, inc, k + 1);
      ChainOnce(t, inc, k + 1);
      forall a, b | 0 <= a < b < |work| ensures work[a].id != work[b].id { AtRevisionOnce(t, |t|, inc, k + 1, a, b); }
      forall a, b | 0 <= a < |work| && 0 <= b < |later| ensures work[a].id != later[b].id {
        LevelsApart(t, inc, k, a, b);
      }
      OnceIs(work);
      ConcatOnce(work, later);
    }
  }

  lemma OnceIs(rows: seq<Meta>)
    requires forall a, b :: 0 <= a < b < |rows| ==> rows[a].id != rows[b].id
    ensures OncePerId(rows)
  {
  }

  /** The recursive query yields every entry of the incident exactly once, and nothing else, each
      with the id and author of the entry its links lead back to and its distance from it. */
  lemma ChainExact(t: seq<Entry>, inc: string)
    requires WellFormed(t)
    ensures forall m :: m in Chain(t, inc) <==> exists i :: IsMeta(t, inc, i, m)
    ensures OncePerId(Chain(t, inc))
  {
    hide ChainFrom, MetaOf, WellFormed;
    forall m ensures m in Chain(t, inc) <==> exists i :: IsMeta(t, inc, i, m) {
      if m in Chain(t, inc) {
        var a :| 0 <= a < |Chain(t, inc)| && Chain(t, inc)[a] == m;
        var i := ChainAt(t, inc, 0, a);
        assert IsMeta(t, inc, i, m);
      }
      if i: nat :| IsMeta(t, inc, i, m) { ChainHas(t, inc, i); }
    }
    ChainOnce(t, inc, 0);
  }

  ghost predicate IsMeta(t: seq<Entry>, inc: string, i: nat, m: Meta)
    requires WellFormed(t)
  {
    i < |t| && t[i].incident == inc && m == MetaOf(t, i)
  }

  /** The last row for an id, as a dictionary built from the rows keeps it. */
  function Lookup(rows: seq<Meta>, id: string): Option<Meta> {
    if rows == [] then None
    else if rows[|rows| - 1].id == id then Some(rows[|rows| - 1])
    else Lookup(rows[..|rows| - 1], id)
  }

  lemma {:induction false} LookupHas(rows: seq<Meta>, a: nat)
    requires a < |rows| && OncePerId(rows)
    ensures Lookup(rows, rows[a].id) == Some(rows[a])
  {
    if a < |rows| - 1 {
      assert rows[a].id != rows[|rows| - 1].id;
      LookupHas(rows[..|rows| - 1], a);
    }
  }

  lemma {:induction false} LookupIn(rows: seq<Meta>, id: string)
    ensures Lookup(rows, id).Some? ==> Lookup(rows, id).value in rows && Lookup(rows, id).value.id == id
  {
    if rows != [] && rows[|rows| - 1].id != id { LookupIn(rows[..|rows| - 1], id); }
  }

  /** revision_meta for one entry id. */
  function RevisionMeta(t: seq<Entry>, inc: string, id: string): Option<Meta>
    requires WellFormed(t)
  {
    Lookup(Chain(t, inc), id)
  }

  lemma RevisionMetaSound(t: seq<Entry>, inc: string, id: string) returns (i: nat)
    requires WellFormed(t) && RevisionMeta(t, inc, id).Some?
    ensures i < |t| && t[i].id == id && t[i].incident == inc
  {
    hide Chain, Root, Revision, Lookup, WellFormed;
    ChainExact(t, inc);
    LookupIn(Chain(t, inc), id);
    i :| IsMeta(t, inc, i, RevisionMeta(t, inc, id).value);
  }

  lemma RevisionMetaHas(t: seq<Entry>, inc: string, i: nat)
    requires WellFormed(t) && i < |t| && t[i].incident == inc
    ensures RevisionMeta(t, inc, t[i].id) == Some(MetaOf(t, i))
  {
    hide Chain, Root, Revision, Lookup, WellFormed;
    var m := MetaOf(t, i);
    ChainExact(t, inc);
    ChainHas(t, inc, i);
    var a :| 0 <= a < |Chain(t, inc)| && Chain(t, inc)[a] == m;
    LookupHas(Chain(t, inc), a);
  }

  /** It knows exactly the entries of the incident, and tells of each its root, revision and root author. */
  lemma RevisionMetaExact(t: seq<Entry>, inc: string, id: string)
    requires WellFormed(t)
    ensures RevisionMeta(t, inc, id)
         == var i := Find(t, id);
            if i.Some? && t[i.value].incident == inc then Some(MetaOf(t, i.value)) else None
  {
    hide RevisionMeta, MetaOf, Linked, UniqueCorrects;
    var i := Find(t, id);
    if i.Some? && t[i.value].incident == inc { RevisionMetaHas(t, inc, i.value); }
    if RevisionMeta(t, inc, id).Some? {
      var j := RevisionMetaSound(t, inc, id);
      FindIs(t, j);
    }
  }
}
