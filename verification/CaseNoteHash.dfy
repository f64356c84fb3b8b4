/** The content hash of a case-note entry and what it covers (backend/case_notes/hashing.py). */
module CaseNoteHash {
  import opened Insertion
  import opened Optional
  import opened StringOrder
  import opened Json
  import opened AuditRow
  import opened Octets
  import Utf8

  /** An entry as hashed; `created` in UTC, links as the texts of the linked ids. */
  datatype Note = Note(id: string, incident: string, author: string, created: Timestamp, body: string,
                       corrects: Option<string>, scratchpad: Option<string>,
                       evidence: seq<string>, entities: seq<string>, iocs: seq<string>, events: seq<string>,
                       hashV: int, signedName: Option<string>, signedAs: Option<string>)

  // ---- sorted() on texts ----

  /** Python's sort puts a text behind all that are not above it. */
  predicate NotAbove(a: string, b: string) { !Less(b, a) }

  function Sort(ids: seq<string>): seq<string> {
    if ids == [] then [] else Place(Sort(ids[..|ids| - 1]), ids[|ids| - 1], NotAbove)
  }

  ghost predicate Ascending(s: seq<string>) { Ordered(s, NotAbove) }

  lemma NotLessTransitive(a: string, b: string, c: string)
    requires !Less(b, a) && !Less(c, b)
    ensures !Less(c, a)
  {
    LessTotal(a, b);
    LessTotal(b, c);
    if Less(a, b) && Less(b, c) { LessTransitive(a, b, c); LessAsymmetric(a, c); }
    if Less(c, a) { LessAsymmetric(c, a); }
  }

  lemma AscendingFront(s: seq<string>)
    requires s != [] && Ascending(s)
    ensures Ascending(s[..|s| - 1])
  {
    hide Less;
  }

  lemma AscendingLast(s: seq<string>, y: string)
    requires s != [] && Ascending(s) && y in s[..|s| - 1]
    ensures !Less(s[|s| - 1], y)
  {
    hide Less;
  }

  lemma PlaceSorts(sorted: seq<string>, x: string)
    requires Ascending(sorted)
    ensures Ascending(Place(sorted, x, NotAbove))
  {
    forall y | y in sorted ensures NotAbove(x, y) || NotAbove(y, x) { if Less(x, y) { LessAsymmetric(x, y); } }
    forall y, z | NotAbove(y, z) && NotAbove(z, x) ensures NotAbove(y, x) { NotLessTransitive(y, z, x); }
    hide Less;
    PlaceOrders(sorted, x, NotAbove, NotAbove);
  }

  lemma {:induction false} SortSorts(ids: seq<string>)
    ensures Ascending(Sort(ids)) && multiset(Sort(ids)) == multiset(ids)
  {
    hide Place, Ascending;
    if ids != [] {
      SortSorts(ids[..|ids| - 1]);
      PlaceSorts(Sort(ids[..|ids| - 1]), ids[|ids| - 1]);
      PlaceKeeps(Sort(ids[..|ids| - 1]), ids[|ids| - 1], NotAbove);
      assert ids == ids[..|ids| - 1] + [ids[|ids| - 1]];
    } else {
      AscendingNone();
    }
  }

  lemma AscendingNone()
    ensures Ascending([])
  {
  }

  /** The last of an ordered list is not below any of its items. */
  lemma LastIsGreatest(s: seq<string>, x: string)
    requires Ascending(s) && x in s
    ensures !Less(s[|s| - 1], x)
  {
    hide Less, Ascending;
    if x in s[..|s| - 1] { AscendingLast(s, x); } else if Less(x, x) { LessAsymmetric(x, x); }
  }

  lemma LastsAgree(s: seq<string>, t: seq<string>)
    requires Ascending(s) && Ascending(t) && s != [] && t != [] && multiset(s) == multiset(t)
    ensures s[|s| - 1] == t[|t| - 1]
  {
    hide Less, Ascending;
    var x, y := s[|s| - 1], t[|t| - 1];
    assert x in multiset(t) && y in multiset(s);
    LastIsGreatest(s, y);
    LastIsGreatest(t, x);
    LessTotal(x, y);
  }

  lemma OffAgain<T>(m: multiset<T>, x: T)
    ensures m + multiset{x} - multiset{x} == m
  {
  }

  lemma FrontsAgree<T>(s: seq<T>, t: seq<T>)
    requires s != [] && t != [] && multiset(s) == multiset(t) && s[|s| - 1] == t[|t| - 1]
    ensures multiset(s[..|s| - 1]) == multiset(t[..|t| - 1])
  {
    var f, g, x := s[..|s| - 1], t[..|t| - 1], s[|s| - 1];
    assert s == f + [x] && t == g + [x];
    OffAgain(multiset(f), x);
    OffAgain(multiset(g), x);
  }

  lemma SameSize<T>(s: seq<T>, t: seq<T>)
    requires multiset(s) == multiset(t)
    ensures |s| == |t|
  {
    assert |multiset(s)| == |s| && |multiset(t)| == |t|;
  }

  /** There is one way to order the same items. */
  lemma {:induction false} OneOrder(s: seq<string>, t: seq<string>)
    requires Ascending(s) && Ascending(t) && multiset(s) == multiset(t)
    ensures s == t
  {
    hide Less, Ascending;
    SameSize(s, t);
    if s != [] {
      LastsAgree(s, t);
      AscendingFront(s);
      AscendingFront(t);
      FrontsAgree(s, t);
      OneOrder(s[..|s| - 1], t[..|t| - 1]);
      assert s == s[..|s| - 1] + [s[|s| - 1]] && t == t[..|t| - 1] + [t[|t| - 1]];
    }
  }

  /** Sorted lists are equal exactly when the same ids were linked, in whatever order. */
  lemma SortCanonical(a: seq<string>, b: seq<string>)
    ensures Sort(a) == Sort(b) <==> multiset(a) == multiset(b)
  {
    hide Sort, Ascending;
    SortSorts(a);
    SortSorts(b);
    if multiset(a) == multiset(b) { OneOrder(Sort(a), Sort(b)); }
  }

  // ---- the document ----

  function Texts(ids: seq<string>): Json { Arr(seq(|ids|, i requires 0 <= i < |ids| => Str(ids[i]))) }

  /** %Y-%m-%dT%H:%M:%S.%fZ */
  function CreatedAtText(t: Timestamp): string { DateTime(t) + ("." + Pad(t.micro, 6) + "Z") }

  /** The time as hashed: down to the microsecond, and always with its fraction. */
  lemma CreatedAtIs(t: Timestamp)
    ensures var s := CreatedAtText(t);
            && |s| == 27 && BeginsWithTime(s, t) && s[19] == '.' && NumberAt(s, 20, 26, t.micro) && s[26] == 'Z'
  {
    assert Pow10(6) == 1_000_000;
    PadText(t.micro, 6);
    DateTimeText(t, "." + Pad(t.micro, 6) + "Z");
    hide DateTime, BeginsWithTime, Pad;
    assert CreatedAtText(t)[20..26] == Pad(t.micro, 6);
  }

  lemma CreatedAtInjective(a: Timestamp, b: Timestamp)
    requires CreatedAtText(a) == CreatedAtText(b)
    ensures a == b
  {
    CreatedAtIs(a);
    CreatedAtIs(b);
    hide CreatedAtText, Decimal;
  }

  function Entries(n: Note, v: int): seq<(string, Json)> {
    [("v", Int(v)), ("id", Str(n.id)), ("incident_id", Str(n.incident)), ("author_id", Str(n.author)),
     ("created_at", Str(CreatedAtText(n.created))), ("body", Str(n.body)),
     ("corrects_id", Nullable(n.corrects)), ("source_scratchpad_id", Nullable(n.scratchpad)),
     ("evidence_ids", Texts(Sort(n.evidence))), ("entity_ids", Texts(Sort(n.entities))),
     ("ioc_ids", Texts(Sort(n.iocs))), ("timeline_event_ids", Texts(Sort(n.events)))]
  }

  function SignedEntries(n: Note): seq<(string, Json)> {
    Entries(n, 2) + [("signed_name", Nullable(n.signedName)), ("signed_as", Nullable(n.signedAs))]
  }

  function Document(n: Note): Json { Obj(Dict(if n.hashV == 2 then SignedEntries(n) else Entries(n, 1))) }

  /** The bytes hashed. */
  function Content(n: Note): seq<Byte> { Utf8.Encode(Print(Document(n), Raw)) }

  function ContentSha256(h: seq<Byte> -> string, n: Note): string { h(Content(n)) }

  // ---- what the hash fixes ----

  predicate SameLinks(a: Note, b: Note) {
    multiset(a.evidence) == multiset(b.evidence) && multiset(a.entities) == multiset(b.entities)
    && multiset(a.iocs) == multiset(b.iocs) && multiset(a.events) == multiset(b.events)
  }

  predicate SameEntry(a: Note, b: Note) {
    a.id == b.id && a.incident == b.incident && a.author == b.author && a.created == b.created && a.body == b.body
    && a.corrects == b.corrects && a.scratchpad == b.scratchpad && SameLinks(a, b)
  }

  /** The two entries agree on everything their common version hashes. */
  predicate SameContent(a: Note, b: Note) {
    (a.hashV == 2 <==> b.hashV == 2) && SameEntry(a, b)
    && (a.hashV == 2 ==> a.signedName == b.signedName && a.signedAs == b.signedAs)
  }

  const NAMES: seq<string> := ["v", "id", "incident_id", "author_id", "created_at", "body", "corrects_id",
    "source_scratchpad_id", "evidence_ids", "entity_ids", "ioc_ids", "timeline_event_ids", "signed_name", "signed_as"]

  lemma NamesDistinct()
    ensures forall i, j :: 0 <= i < j < |NAMES| ==> NAMES[i] != NAMES[j]
  {}

  lemma EntryNames(n: Note, v: int)
    ensures |Entries(n, v)| == 12 && |SignedEntries(n)| == 14
    ensures forall i :: 0 <= i < 12 ==> Entries(n, v)[i].0 == NAMES[i]
    ensures forall i :: 0 <= i < 14 ==> SignedEntries(n)[i].0 == NAMES[i]
    ensures DistinctKeys(Entries(n, v)) && DistinctKeys(SignedEntries(n))
  {
    NamesDistinct();
  }

  /** A list of the given texts, sorted. */
  ghost predicate ListsSorted(v: Json, ids: seq<string>) {
    v.Arr? && exists sorted :: SortedFrom(sorted, ids) && v == Texts(sorted)
  }

  ghost predicate SortedFrom(sorted: seq<string>, ids: seq<string>) {
    Ascending(sorted) && multiset(sorted) == multiset(ids)
  }

  ghost predicate LinksAt(m: map<string, Json>, k: string, ids: seq<string>) { k in m && ListsSorted(m[k], ids) }

  /** Which member of a document holds which field. */
  ghost predicate HoldsEntry(m: map<string, Json>, n: Note) {
    && Member(m, "id", Str(n.id)) && Member(m, "incident_id", Str(n.incident))
    && Member(m, "author_id", Str(n.author)) && Member(m, "created_at", Str(CreatedAtText(n.created)))
    && Member(m, "body", Str(n.body)) && TextOrNull(m, "corrects_id", n.corrects)
    && TextOrNull(m, "source_scratchpad_id", n.scratchpad)
    && LinksAt(m, "evidence_ids", n.evidence) && LinksAt(m, "entity_ids", n.entities)
    && LinksAt(m, "ioc_ids", n.iocs) && LinksAt(m, "timeline_event_ids", n.events)
  }

  /** Its members, one by one, and no others. */
  ghost predicate HoldsNote(m: map<string, Json>, n: Note) {
    && m.Keys == (set i | 0 <= i < (if n.hashV == 2 then 14 else 12) :: NAMES[i])
    && Member(m, "v", Int(if n.hashV == 2 then 2 else 1)) && HoldsEntry(m, n)
    && (n.hashV == 2 ==> TextOrNull(m, "signed_name", n.signedName) && TextOrNull(m, "signed_as", n.signedAs))
  }

  lemma LinksHeld(m: map<string, Json>, k: string, ids: seq<string>)
    requires Member(m, k, Texts(Sort(ids)))
    ensures LinksAt(m, k, ids)
  {
    hide Sort, Ascending;
    SortSorts(ids);
    assert SortedFrom(Sort(ids), ids);
  }

  lemma EntryHeld(m: map<string, Json>, d: seq<(string, Json)>, n: Note, v: int)
    requires Entries(n, v) <= d && forall i :: 0 <= i < |d| ==> Member(m, d[i].0, d[i].1)
    ensures Member(m, "v", Int(v)) && HoldsEntry(m, n)
  {
    hide Member, Texts, Sort, CreatedAtText, LinksAt;
    var e := Entries(n, v);
    assert forall i :: 0 <= i < 12 ==> d[i] == e[i];
    assert Member(m, d[0].0, d[0].1) && Member(m, d[1].0, d[1].1) && Member(m, d[2].0, d[2].1)
        && Member(m, d[3].0, d[3].1) && Member(m, d[4].0, d[4].1) && Member(m, d[5].0, d[5].1);
    assert Member(m, d[6].0, d[6].1) && Member(m, d[7].0, d[7].1) && Member(m, d[8].0, d[8].1)
        && Member(m, d[9].0, d[9].1) && Member(m, d[10].0, d[10].1) && Member(m, d[11].0, d[11].1);
    LinksHeld(m, "evidence_ids", n.evidence);
    LinksHeld(m, "entity_ids", n.entities);
    LinksHeld(m, "ioc_ids", n.iocs);
    LinksHeld(m, "timeline_event_ids", n.events);
  }

  lemma SignatureHeld(m: map<string, Json>, d: seq<(string, Json)>, n: Note)
    requires d == SignedEntries(n) && forall i :: 0 <= i < |d| ==> Member(m, d[i].0, d[i].1)
    ensures TextOrNull(m, "signed_name", n.signedName) && TextOrNull(m, "signed_as", n.signedAs)
  {
    hide Member, Entries;
    EntryNames(n, 2);
    assert Member(m, d[12].0, d[12].1) && Member(m, d[13].0, d[13].1);
  }

  /** Which member of the hashed document holds which field of the entry, the linked ids sorted. */
  lemma DocumentMembers(n: Note)
    ensures Document(n).Obj? && HoldsNote(Document(n).members, n)
  {
    hide Dict, Entries, Member, TextOrNull, HoldsEntry, DistinctKeys;
    var d := if n.hashV == 2 then SignedEntries(n) else Entries(n, 1);
    EntryNames(n, 1);
    EntryNames(n, 2);
    DictMembers(d);
    var m := Dict(d);
    forall i | 0 <= i < |d| ensures NAMES[i] in m { MemberHas(m, d[i].0, d[i].1); }
    EntryHeld(m, d, n, if n.hashV == 2 then 2 else 1);
    if n.hashV == 2 { SignatureHeld(m, d, n); }
  }

  lemma TextsInjective(a: seq<string>, b: seq<string>)
    requires Texts(a) == Texts(b)
    ensures a == b
  {
    assert |Texts(a).items| == |a| && |Texts(b).items| == |b|;
    forall i | 0 <= i < |a| ensures a[i] == b[i] {
      assert Texts(a).items[i] == Str(a[i]) && Texts(b).items[i] == Str(b[i]);
    }
  }

  lemma LinksFix(v: Json, a: seq<string>, b: seq<string>)
    requires ListsSorted(v, a) && ListsSorted(v, b)
    ensures multiset(a) == multiset(b)
  {
    hide Ascending, Texts;
    var s :| SortedFrom(s, a) && v == Texts(s);
    var t :| SortedFrom(t, b) && v == Texts(t);
    TextsInjective(s, t);
  }

  lemma MembersFix(m: map<string, Json>, a: Note, b: Note)
    requires HoldsEntry(m, a) && HoldsEntry(m, b)
    ensures SameEntry(a, b)
  {
    hide ListsSorted, CreatedAtText;
    CreatedAtInjective(a.created, b.created);
    LinksFix(m["evidence_ids"], a.evidence, b.evidence);
    LinksFix(m["entity_ids"], a.entities, b.entities);
    LinksFix(m["ioc_ids"], a.iocs, b.iocs);
    LinksFix(m["timeline_event_ids"], a.events, b.events);
  }

  /** A version 1 document is never a version 2 document. */
  lemma ShapesDiffer(a: Note, b: Note)
    requires a.hashV == 2 && b.hashV != 2
    ensures Document(a) != Document(b)
  {
    hide Document, HoldsEntry, TextOrNull;
    DocumentMembers(a);
    DocumentMembers(b);
  }

  lemma SameEntries(a: Note, b: Note, v: int)
    requires SameEntry(a, b)
    ensures Entries(a, v) == Entries(b, v)
  {
    hide Texts, Sort, CreatedAtText;
    SortCanonical(a.evidence, b.evidence);
    SortCanonical(a.entities, b.entities);
    SortCanonical(a.iocs, b.iocs);
    SortCanonical(a.events, b.events);
  }

  lemma SameContentSameDocument(a: Note, b: Note)
    requires SameContent(a, b)
    ensures Document(a) == Document(b)
  {
    hide Dict, SameEntry, Entries;
    SameEntries(a, b, 1);
    SameEntries(a, b, 2);
  }

  /** Two documents are equal exactly when the versions and everything hashed are; the order in
      which links were given does not matter. */
  lemma DocumentFixesContent(a: Note, b: Note)
    ensures Document(a) == Document(b) <==> SameContent(a, b)
  {
    hide Document, HoldsEntry, SameEntry;
    if Document(a) == Document(b) {
      DocumentMembers(a);
      DocumentMembers(b);
      MembersFix(Document(a).members, a, b);
    }
    if SameContent(a, b) { SameContentSameDocument(a, b); }
  }

  /** Under a hash without a collision on the two contents, equal content hashes mean equal
      versions and equal hashed fields, and the other way round. */
  lemma HashFixesContent(h: seq<Byte> -> string, a: Note, b: Note)
    requires h(Content(a)) == h(Content(b)) ==> Content(a) == Content(b)
    ensures ContentSha256(h, a) == ContentSha256(h, b) <==> SameContent(a, b)
  {
    hide Document, SameContent, Print;
    DocumentFixesContent(a, b);
    if Content(a) == Content(b) {
      Utf8.EncodeInjective(Print(Document(a), Raw), Print(Document(b), Raw));
      PrintInjective(Document(a), Document(b), Raw);
    }
  }
}
