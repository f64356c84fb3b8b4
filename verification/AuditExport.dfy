/** The signed audit export: which rows are taken (backend/audit_export/routes.py), how they are
    written, and the recipe a recipient checks them with (backend/audit_export/bundle.py). */
module AuditExport {
  import opened Joining
  import opened Optional
  import opened Json
  import opened AuditRow
  import opened AuditChain

  // ---- audit.jsonl ----

  function Entries(row: AuditRow): seq<(string, Json)> {
    [("id", Str(row.id)), ("hash_version", Str(Version(row))), ("prev_hash", Str(row.prevHash)),
     ("row_hash", Str(row.rowHash)),
     ("payload", if CanonicalPayload(row).Some? then CanonicalPayload(row).value else Null)]
  }

  function Record(row: AuditRow): Json { Obj(Dict(Entries(row))) }

  function Line(row: AuditRow): string { Print(Record(row), Escaped) }

  function Lines(rows: seq<AuditRow>): (lines: seq<string>)
    ensures |lines| == |rows| && forall i :: 0 <= i < |rows| ==> lines[i] == Line(rows[i])
  {
    if rows == [] then [] else [Line(rows[0])] + Lines(rows[1..])
  }

  /** Every line with its line feed. */
  function Terminated(lines: seq<string>): string {
    if lines == [] then "" else lines[0] + ("\n" + Terminated(lines[1..]))
  }

  lemma {:induction false} JoinTerminated(lines: seq<string>)
    ensures Terminated(lines) == if lines == [] then "" else Join(lines, "\n") + "\n"
  {
    if lines != [] {
      JoinTerminated(lines[1..]);
      if |lines| == 1 { assert "\n" + "" == "\n"; }
      else {
        Assoc(lines[0], "\n" + Join(lines[1..], "\n"), "\n");
        Assoc("\n", Join(lines[1..], "\n"), "\n");
      }
    }
  }

  method RenderJsonl(rows: seq<AuditRow>) returns (text: string)
    ensures text == Terminated(Lines(rows))
  {
    hide Line;
    var lines := [];
    for i := 0 to |rows|
      invariant |lines| == i && forall k :: 0 <= k < i ==> lines[k] == Line(rows[k])
    {
      lines := lines + [Line(rows[i])];
    }
    assert lines == Lines(rows);
    JoinTerminated(lines);
    text := Join(lines, "\n");
    if lines != [] { text := text + "\n"; }
  }

  // ---- the recipe of README.txt ----

  function FrontLine(text: string): (line: string)
    ensures line <= text && '\n' !in line
    ensures |line| < |text| ==> text[|line|] == '\n'
  {
    if text == "" || text[0] == '\n' then "" else [text[0]] + FrontLine(text[1..])
  }

  /** `for line in open(...)`, each line without its line feed. */
  function SplitLines(text: string): seq<string>
    decreases |text|
  {
    if text == "" then []
    else
      var line := FrontLine(text);
      [line] + if |line| == |text| then [] else SplitLines(text[|line| + 1..])
  }

  datatype Verdict = OK | FAIL | Unreadable

  /** Parse the record, re-canonicalise its payload, hash, compare. */
  function Recipe(h: string -> string, line: string): Verdict {
    match Parse(line)
    case Fail => Unreadable
    case Ok(rec, _) =>
      if rec.Obj? && "payload" in rec.members && "prev_hash" in rec.members && "row_hash" in rec.members
         && rec.members["prev_hash"].Str?
      then
        var canon := Print(rec.members["payload"], Escaped);
        if Str(h(rec.members["prev_hash"].s + canon)) == rec.members["row_hash"] then OK else FAIL
      else Unreadable
  }

  function RecipeReport(h: string -> string, lines: seq<string>): (r: seq<Verdict>)
    ensures |r| == |lines| && forall i :: 0 <= i < |lines| ==> r[i] == Recipe(h, lines[i])
  {
    if lines == [] then [] else [Recipe(h, lines[0])] + RecipeReport(h, lines[1..])
  }

  lemma LineHasNoBreak(row: AuditRow)
    ensures Line(row) != "" && forall c :: c in Line(row) ==> ' ' <= c <= '~'
  {
    PrintPlain(Record(row), Escaped);
    PrintStarts(Record(row), Escaped);
  }

  lemma {:induction false} FrontLineOf(line: string, rest: string)
    requires '\n' !in line
    ensures FrontLine(line + ("\n" + rest)) == line
  {
    if line == "" {
      assert line + ("\n" + rest) == "\n" + rest;
    } else {
      assert line == [line[0]] + line[1..];
      Assoc([line[0]], line[1..], "\n" + rest);
      Drop([line[0]], line[1..] + ("\n" + rest));
      FrontLineOf(line[1..], rest);
    }
  }

  /** Splitting on line feeds gives back exactly one record per row, in order. */
  lemma {:induction false} SplitRendered(rows: seq<AuditRow>)
    ensures SplitLines(Terminated(Lines(rows))) == Lines(rows)
  {
    hide Line;
    if rows != [] {
      var line, rest := Line(rows[0]), Terminated(Lines(rows[1..]));
      var text := Terminated(Lines(rows));
      LineHasNoBreak(rows[0]);
      assert Lines(rows)[1..] == Lines(rows[1..]);
      assert text == line + ("\n" + rest);
      FrontLineOf(line, rest);
      Assoc(line, "\n", rest);
      Drop(line + "\n", rest);
      SplitRendered(rows[1..]);
    }
  }

  lemma EntriesDistinct(row: AuditRow)
    ensures DistinctKeys(Entries(row))
  {}

  /** Which member of a record holds what of its row. */
  lemma RecordMembers(row: AuditRow)
    ensures var m := Record(row).members;
            m.Keys == {"id", "hash_version", "prev_hash", "row_hash", "payload"}
            && "payload" in m && "prev_hash" in m && "row_hash" in m && "id" in m && "hash_version" in m
            && m["prev_hash"] == Str(row.prevHash) && m["row_hash"] == Str(row.rowHash)
            && m["id"] == Str(row.id) && m["hash_version"] == Str(Version(row))
            && m["payload"] == if CanonicalPayload(row).Some? then CanonicalPayload(row).value else Null
  {
    hide Dict, CanonicalPayload;
    var e := Entries(row);
    EntriesDistinct(row);
    DictMembers(e);
    assert Member(Dict(e), e[0].0, e[0].1) && Member(Dict(e), e[1].0, e[1].1) && Member(Dict(e), e[2].0, e[2].1);
    assert Member(Dict(e), e[3].0, e[3].1) && Member(Dict(e), e[4].0, e[4].1);
  }

  lemma RecipeOnRecord(h: string -> string, row: AuditRow)
    ensures var m := Record(row).members;
            "payload" in m && Recipe(h, Line(row)) ==
            if h(row.prevHash + Print(m["payload"], Escaped)) == row.rowHash then OK else FAIL
  {
    ParsePrint(Record(row), Escaped);
    RecordMembers(row);
    assert Record(row).Obj?;
    hide Record, Parse, Print, CanonicalPayload;
  }

  /** The offline recipe says OK for a record exactly when the in-app check accepts its row; for a
      row of unknown version, which the in-app check refuses, it checks the hash over "null". */
  lemma RecipeAgrees(h: string -> string, row: AuditRow)
    ensures Recipe(h, Line(row)) != Unreadable
    ensures KnownVersion(row) ==> (Recipe(h, Line(row)) == OK <==> VerifyRowHash(h, row))
    ensures !KnownVersion(row) ==>
              !VerifyRowHash(h, row) && (Recipe(h, Line(row)) == OK <==> h(row.prevHash + "null") == row.rowHash)
  {
    RecipeOnRecord(h, row);
    RecordMembers(row);
    hide Recipe, Line, Record, Dict, EntriesV1, EntriesV2, EntriesV3;
  }

  /** Running the recipe over the whole file reports, row by row, what the in-app check says. */
  lemma RecipeReportAgrees(h: string -> string, rows: seq<AuditRow>)
    requires forall r :: r in rows ==> KnownVersion(r)
    ensures var report := RecipeReport(h, SplitLines(Terminated(Lines(rows))));
            |report| == |rows|
            && forall i :: 0 <= i < |rows| ==> report[i] == if VerifyRowHash(h, rows[i]) then OK else FAIL
  {
    hide VerifyRowHash, Recipe, Line;
    SplitRendered(rows);
    forall i | 0 <= i < |rows|
      ensures Recipe(h, Line(rows[i])) == if VerifyRowHash(h, rows[i]) then OK else FAIL
    {
      RecipeAgrees(h, rows[i]);
    }
  }

  /** What a record tells of its row: all but the fields its version does not hash. */
  ghost predicate SameRecord(a: AuditRow, b: AuditRow) {
    a.id == b.id && Version(a) == Version(b) && a.prevHash == b.prevHash && a.rowHash == b.rowHash
    && CanonicalPayload(a) == CanonicalPayload(b)
  }

  lemma LineFixesRow(a: AuditRow, b: AuditRow)
    requires Line(a) == Line(b)
    ensures SameRecord(a, b)
  {
    PrintInjective(Record(a), Record(b), Escaped);
    RecordMembers(a);
    RecordMembers(b);
    hide Record, CanonicalPayload, Version;
    assert Version(a) == Version(b);
    PayloadPresence(a, b);
  }

  lemma TextFixesLines(a: seq<AuditRow>, b: seq<AuditRow>)
    requires Terminated(Lines(a)) == Terminated(Lines(b))
    ensures Lines(a) == Lines(b)
  {
    hide *;
    SplitRendered(a);
    SplitRendered(b);
  }

  lemma RowFixed(a: seq<AuditRow>, b: seq<AuditRow>, i: nat)
    requires Lines(a) == Lines(b) && i < |a|
    ensures |a| == |b| && SameRecord(a[i], b[i])
  {
    hide *;
    assert Lines(a)[i] == Line(a[i]);
    assert Lines(b)[i] == Line(b[i]);
    LineFixesRow(a[i], b[i]);
  }

  ghost predicate SameRecords(a: seq<AuditRow>, b: seq<AuditRow>) {
    |a| == |b| && forall i :: 0 <= i < |a| ==> SameRecord(a[i], b[i])
  }

  /** The signed text fixes the slice: how many rows, and of each its id, version, hashes and payload. */
  lemma RenderFixesRows(a: seq<AuditRow>, b: seq<AuditRow>)
    requires Terminated(Lines(a)) == Terminated(Lines(b))
    ensures SameRecords(a, b)
  {
    TextFixesLines(a, b);
    hide SameRecord, Terminated, SplitLines, Lines, Line;
    forall i | 0 <= i < |a| ensures |a| == |b| && SameRecord(a[i], b[i]) { RowFixed(a, b, i); }
  }

  lemma PayloadPresence(a: AuditRow, b: AuditRow)
    requires Version(a) == Version(b)
    ensures CanonicalPayload(a).Some? <==> CanonicalPayload(b).Some?
  {
    hide Dict, EntriesV1, EntriesV2, EntriesV3;
  }

  // ---- the slice ----

  /** The filters of an export; `other` stands for action, user, type, outcome and incident. */
  datatype Filters = Filters(dateFrom: Option<Timestamp>, dateTo: Option<Timestamp>, other: AuditRow -> bool)

  predicate InDates(row: AuditRow, from: Option<Timestamp>, to: Option<Timestamp>) {
    (from.Some? ==> row.timestamp.Tick() >= from.value.Tick())
    && (to.Some? ==> row.timestamp.Tick() <= to.value.Tick())
  }

  predicate Matches(row: AuditRow, f: Filters) { InDates(row, f.dateFrom, f.dateTo) && f.other(row) }

  function Matching(log: seq<AuditRow>, f: Filters): seq<AuditRow> {
    if log == [] then [] else (if Matches(log[0], f) then [log[0]] else []) + Matching(log[1..], f)
  }

  const CEILING: nat := 50_000

  datatype Slice = Rows(rows: seq<AuditRow>) | TooLarge

  /** _select_slice: at most one row more than the ceiling is fetched, and refused. */
  function SelectSlice(log: seq<AuditRow>, f: Filters): Slice {
    var all := Matching(log, f);
    var fetched := if |all| <= CEILING + 1 then all else all[..CEILING + 1];
    if |fetched| > CEILING then TooLarge else Rows(fetched)
  }

  /** Without a filter other than dates. */
  ghost predicate DatesOnly(f: Filters) { forall r :: f.other(r) }

  ghost predicate Rises(log: seq<AuditRow>) {
    forall i, j :: 0 <= i < j < |log| ==> log[i].timestamp.Tick() <= log[j].timestamp.Tick()
  }

  /** Not before the first bound and not after the second, both included. */
  ghost predicate Within(t: Timestamp, from: Option<Timestamp>, to: Option<Timestamp>) {
    (from.Some? ==> !Earlier(t, from.value)) && (to.Some? ==> !Earlier(to.value, t))
  }

  lemma InDatesIs(row: AuditRow, from: Option<Timestamp>, to: Option<Timestamp>)
    ensures InDates(row, from, to) <==> Within(row.timestamp, from, to)
  {
    hide Earlier;
    if from.Some? { TickOrders(row.timestamp, from.value); }
    if to.Some? { TickOrders(to.value, row.timestamp); }
  }

  /** The indices from `lo` up to `hi` are those of the matching rows. */
  ghost predicate MatchesAre(log: seq<AuditRow>, f: Filters, lo: nat, hi: nat) {
    lo <= hi <= |log| && forall i :: 0 <= i < |log| ==> (lo <= i < hi <==> Matches(log[i], f))
  }

  lemma {:induction false} FrontMatches(log: seq<AuditRow>, f: Filters) returns (hi: nat)
    requires Rises(log) && DatesOnly(f)
    requires f.dateFrom.Some? ==> forall r :: r in log ==> r.timestamp.Tick() >= f.dateFrom.value.Tick()
    ensures MatchesAre(log, f, 0, hi)
  {
    if log == [] || !Matches(log[0], f) {
      hi := 0;
      forall i | 0 <= i < |log| ensures !Matches(log[i], f) { assert log[i] in log && log[0] in log; }
    } else {
      var rest := FrontMatches(log[1..], f);
      hi := rest + 1;
      forall i | 0 <= i < |log| ensures i < hi <==> Matches(log[i], f) {
        if i > 0 { assert log[i] == log[1..][i - 1]; }
      }
    }
  }

  lemma {:induction false} MatchingIs(log: seq<AuditRow>, f: Filters, lo: nat, hi: nat)
    requires MatchesAre(log, f, lo, hi)
    ensures Matching(log, f) == log[lo..hi]
  {
    hide Matches;
    if log != [] {
      var l, h := if lo == 0 then 0 else lo - 1, if hi == 0 then 0 else hi - 1;
      forall i | 0 <= i < |log| - 1 ensures l <= i < h <==> Matches(log[1..][i], f) {
        assert log[1..][i] == log[i + 1];
      }
      MatchingIs(log[1..], f, l, h);
      if lo == 0 < hi { assert log[0..hi] == [log[0]] + log[1..][0..h]; }
      if lo > 0 { assert log[lo..hi] == log[1..][l..h]; }
    }
  }

  lemma {:induction false} StretchMatches(log: seq<AuditRow>, f: Filters) returns (lo: nat, hi: nat)
    requires Rises(log) && DatesOnly(f)
    ensures MatchesAre(log, f, lo, hi)
  {
    if log == [] {
      lo, hi := 0, 0;
    } else if f.dateFrom.Some? && log[0].timestamp.Tick() < f.dateFrom.value.Tick() {
      lo, hi := StretchMatches(log[1..], f);
      lo, hi := lo + 1, hi + 1;
      forall i | 0 <= i < |log| ensures lo <= i < hi <==> Matches(log[i], f) {
        if i > 0 { assert log[i] == log[1..][i - 1]; }
      }
    } else {
      lo := 0;
      hi := FrontMatches(log, f);
    }
  }

  /** A slice with no filter, or only date bounds, is a contiguous stretch of the log: the rows within
      the bounds, both bounds included. */
  lemma DateSliceContiguous(log: seq<AuditRow>, f: Filters) returns (lo: nat, hi: nat)
    requires Rises(log) && DatesOnly(f)
    ensures lo <= hi <= |log| && Matching(log, f) == log[lo..hi]
    ensures forall i :: 0 <= i < |log| ==> (lo <= i < hi <==> Within(log[i].timestamp, f.dateFrom, f.dateTo))
  {
    lo, hi := StretchMatches(log, f);
    MatchingIs(log, f, lo, hi);
    hide InDates, Within, Rises;
    forall i | 0 <= i < |log| ensures lo <= i < hi <==> Within(log[i].timestamp, f.dateFrom, f.dateTo) {
      InDatesIs(log[i], f.dateFrom, f.dateTo);
    }
  }

  /** `s` is the stretch of the log that begins at `lo`. */
  ghost predicate StretchAt(log: seq<AuditRow>, s: seq<AuditRow>, lo: nat) {
    lo + |s| <= |log| && s == log[lo..lo + |s|]
  }

  /** Such a slice of a clean log walks clean from its own first link, and its ends are the ones
      the manifest records. */
  lemma DateSliceWalks(h: string -> string, log: seq<AuditRow>, f: Filters)
    requires InKeyOrder(log) && Chained(h, log, GENESIS) && DatesOnly(f)
    requires SelectSlice(log, f).Rows? && SelectSlice(log, f).rows != []
    ensures var s := SelectSlice(log, f).rows; Chained(h, s, s[0].prevHash)
    ensures exists lo :: StretchAt(log, SelectSlice(log, f).rows, lo)
  {
    hide VerifyRowHash, Chained;
    assert Rises(log) by {
      forall i, j | 0 <= i < j < |log| ensures log[i].timestamp.Tick() <= log[j].timestamp.Tick() {
        assert Before(log[i], log[j]);
      }
    }
    var lo, hi := DateSliceContiguous(log, f);
    SegmentChained(h, log, GENESIS, lo, hi);
    assert StretchAt(log, SelectSlice(log, f).rows, lo);
  }

  lemma {:induction false} MatchingExact(log: seq<AuditRow>, f: Filters)
    ensures forall r :: r in Matching(log, f) <==> r in log && Matches(r, f)
  {
    if log != [] {
      MatchingExact(log[1..], f);
      assert log == [log[0]] + log[1..];
    }
  }

  /** Any slice holds exactly the rows within the bounds that the other filters let through, in the
      log's order; refused only above the ceiling. */
  lemma SliceExact(log: seq<AuditRow>, f: Filters)
    requires InKeyOrder(log)
    ensures InKeyOrder(Matching(log, f))
    ensures forall r :: r in Matching(log, f) <==>
              r in log && Within(r.timestamp, f.dateFrom, f.dateTo) && f.other(r)
    ensures SelectSlice(log, f) == if |Matching(log, f)| > 50_000 then TooLarge else Rows(Matching(log, f))
  {
    hide InDates, Within;
    MatchingExact(log, f);
    MatchingOrdered(log, f);
    forall r ensures r in Matching(log, f) <==>
                     r in log && Within(r.timestamp, f.dateFrom, f.dateTo) && f.other(r)
    {
      InDatesIs(r, f.dateFrom, f.dateTo);
    }
  }

  lemma {:induction false} MatchingOrdered(log: seq<AuditRow>, f: Filters)
    requires InKeyOrder(log)
    ensures InKeyOrder(Matching(log, f))
  {
    hide Before, Matches;
    if log != [] {
      MatchingOrdered(log[1..], f);
      MatchingExact(log[1..], f);
      FirstIsLeast(log);
      if Matches(log[0], f) { ConsInOrder(log[0], Matching(log[1..], f)); }
    }
  }
}
