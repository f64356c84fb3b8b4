/** The merge of DNS records into one entry per name (analysis-worker/worker.py). */
module DnsMerge {
  import opened FirstSeen
  import opened Joining
  import opened Optional
  import UserAgent

  const CAP: nat := 200

  // ---- the output, split ----

  /** The tab-separated fields of one line of output. */
  type Fields = seq<string>

  predicate IsTab(c: char) { c == '\t' }

  /** Where str.splitlines() ends a line. */
  predicate IsBreak(c: char) {
    var u := c as int;
    0x0A <= u <= 0x0D || 0x1C <= u <= 0x1E || u == 0x85 || u == 0x2028 || u == 0x2029
  }

  /** The longest front of `s` in which nothing stops. */
  function Front(s: string, stop: char -> bool): (f: string)
    ensures f <= s && forall i :: 0 <= i < |f| ==> !stop(f[i])
    ensures |f| < |s| ==> stop(s[|f|])
  {
    if s == "" || stop(s[0]) then "" else [s[0]] + Front(s[1..], stop)
  }

  /** str.split("\t"). */
  function SplitTabs(s: string): (fields: Fields)
    ensures fields != []
    decreases |s|
  {
    var f := Front(s, IsTab);
    if |f| == |s| then [f] else [f] + SplitTabs(s[|f| + 1..])
  }

  /** str.splitlines(): CR LF is one break, and none at the end begins no line. */
  function SplitLines(s: string): seq<string>
    decreases |s|
  {
    if s == "" then []
    else
      var f := Front(s, IsBreak);
      if |f| == |s| then [f]
      else if |f| + 1 < |s| && s[|f|] == '\r' && s[|f| + 1] == '\n' then [f] + SplitLines(s[|f| + 2..])
      else [f] + SplitLines(s[|f| + 1..])
  }

  function AllFields(lines: seq<string>): (rows: seq<Fields>)
    ensures |rows| == |lines| && forall i :: 0 <= i < |lines| ==> rows[i] == SplitTabs(lines[i])
  {
    seq(|lines|, i requires 0 <= i < |lines| => SplitTabs(lines[i]))
  }

  /** The records of an output. */
  function Rows(out: string): seq<Fields> { AllFields(SplitLines(out)) }

  lemma {:induction false} FrontStops(f: string, rest: string, stop: char -> bool)
    requires (forall i :: 0 <= i < |f| ==> !stop(f[i])) && (rest != "" ==> stop(rest[0]))
    ensures Front(f + rest, stop) == f
  {
    if f == "" {
      assert f + rest == rest;
    } else {
      assert (f + rest)[1..] == f[1..] + rest;
      FrontStops(f[1..], rest, stop);
    }
  }

  /** Every record on a line of its own. */
  function WriteRows(rows: seq<Fields>): string
    requires forall i :: 0 <= i < |rows| ==> rows[i] != []
  {
    if rows == [] then "" else Join(rows[0], "\t") + ("\n" + WriteRows(rows[1..]))
  }

  /** No field holds a tab or a line break. */
  predicate Printable(fields: Fields) {
    forall i, j :: 0 <= i < |fields| && 0 <= j < |fields[i]| ==> !IsTab(fields[i][j]) && !IsBreak(fields[i][j])
  }

  lemma {:induction false} SplitJoinedTabs(fields: Fields)
    requires fields != [] && Printable(fields)
    ensures SplitTabs(Join(fields, "\t")) == fields
    ensures forall j :: 0 <= j < |Join(fields, "\t")| ==> !IsBreak(Join(fields, "\t")[j])
  {
    hide Front, IsTab;
    var s := Join(fields, "\t");
    if |fields| == 1 {
      FrontStops(fields[0], "", IsTab);
      assert fields[0] + "" == fields[0];
    } else {
      SplitJoinedTabs(fields[1..]);
      var rest := "\t" + Join(fields[1..], "\t");
      assert IsTab(rest[0]) by { TabIsTab(); }
      FrontStops(fields[0], rest, IsTab);
      assert s[|fields[0]| + 1..] == Join(fields[1..], "\t");
    }
  }

  lemma TabIsTab()
    ensures IsTab('\t') && !IsBreak('\t')
  {
  }

  /** Records printed one to a line, fields separated by tabs, are read back as they were. */
  lemma {:induction false} RowsOfWritten(rows: seq<Fields>)
    requires forall i :: 0 <= i < |rows| ==> rows[i] != [] && Printable(rows[i])
    ensures Rows(WriteRows(rows)) == rows
  {
    hide Front, Printable, Join, SplitTabs;
    if rows == [] {
      assert SplitLines("") == [];
    } else {
      var line, more := Join(rows[0], "\t"), WriteRows(rows[1..]);
      SplitJoinedTabs(rows[0]);
      RowsOfWritten(rows[1..]);
      SplitFirstLine(line, '\n', more);
    }
  }

  /** The line ends of str.splitlines(), each one break, and CR LF together one. */
  const BREAKS: set<int> := {0x0A, 0x0B, 0x0C, 0x0D, 0x1C, 0x1D, 0x1E, 0x85, 0x2028, 0x2029}

  /** The first line ends at the first of these, and nowhere else. */
  lemma SplitFirstLine(line: string, c: char, more: string)
    requires (forall j :: 0 <= j < |line| ==> line[j] as int !in BREAKS) && c as int in BREAKS
    ensures !(c == '\r' && more != "" && more[0] == '\n') ==>
              SplitLines(line + ([c] + more)) == [line] + SplitLines(more)
    ensures c == '\r' && more != "" && more[0] == '\n' ==>
              SplitLines(line + ([c] + more)) == [line] + SplitLines(more[1..])
    ensures line != "" ==> SplitLines(line) == [line]
  {
    hide IsBreak, SplitLines;
    BreakIs(c);
    forall j | 0 <= j < |line| ensures !IsBreak(line[j]) { BreakIs(line[j]); }
    LineEnds(line, c, more);
    if line != "" { LastLine(line); }
  }

  lemma BreakIs(c: char)
    ensures IsBreak(c) <==> c as int in BREAKS
  {}

  lemma LineEnds(line: string, c: char, more: string)
    requires (forall j :: 0 <= j < |line| ==> !IsBreak(line[j])) && IsBreak(c)
    ensures SplitLines(line + ([c] + more)) ==
      [line] + SplitLines(if c == '\r' && more != "" && more[0] == '\n' then more[1..] else more)
  {
    hide IsBreak, Front;
    var s := line + ([c] + more);
    FrontStops(line, [c] + more, IsBreak);
    assert s[|line|] == c && s[|line| + 1..] == more;
    if more != "" { assert s[|line| + 1] == more[0] && s[|line| + 2..] == more[1..]; }
  }

  lemma LastLine(line: string)
    requires line != "" && forall j :: 0 <= j < |line| ==> !IsBreak(line[j])
    ensures SplitLines(line) == [line]
  {
    hide IsBreak, Front;
    FrontStops(line, "", IsBreak);
    assert line + "" == line;
  }

  // ---- records and entries ----

  /** What is noted of a name that looks suspicious. */
  datatype Flag = Yes | Text(s: string)

  datatype Entry = Entry(time: string, epoch: Option<string>, src: string, query: string, response: string,
                         resolvedIp: string, cname: string, kind: string, isResponse: bool,
                         suspicious: map<string, Flag>)

  /** The checks a record's entry depends on: _epoch_ok and _suspicious_domain. */
  datatype Checks = Checks(epochOk: string -> bool, suspicious: string -> map<string, Flag>)

  /** Field k, or the empty string where the line is shorter. */
  function Field(f: Fields, k: nat): string { if k < |f| then f[k] else "" }

  function Name(f: Fields): string
    requires |f| >= 4
  {
    if f[2] != "" then f[2] else f[3]
  }

  /** Lines that count: at least four fields and a name. */
  predicate Counts(f: Fields) { |f| >= 4 && Name(f) != "" }

  function LStrip(s: string): string { if s != "" && UserAgent.IsSpace(s[0]) then LStrip(s[1..]) else s }

  function Strip(s: string): string { LStrip(UserAgent.RStrip(s)) }

  function Lower(s: string): string {
    seq(|s|, i requires 0 <= i < |s| => if 'A' <= s[i] <= 'Z' then ((s[i] as int) + 32) as char else s[i])
  }

  predicate IsResponse(f: Fields) { Lower(Strip(Field(f, 7))) in ["1", "true"] }

  /** The entry of the first record of a name. */
  function Begin(f: Fields, checks: Checks): Entry
    requires Counts(f)
  {
    Entry(f[0], if |f| > 8 && checks.epochOk(Strip(f[8])) then Some(Strip(f[8])) else None, f[1], f[2], f[3],
          Field(f, 4), Field(f, 5), Field(f, 6), IsResponse(f), checks.suspicious(Name(f)))
  }

  /** `a or b` on strings. */
  function Or(a: string, b: string): string { if a != "" then a else b }

  /** A later record of the same name: only an answer, and only while nothing is resolved. */
  function Absorb(e: Entry, f: Fields): Entry
    requires Counts(f)
  {
    if IsResponse(f) && e.resolvedIp == ""
    then e.(resolvedIp := Field(f, 4), cname := Or(e.cname, Field(f, 5)), response := Or(e.response, f[3]))
    else e
  }

  // ---- the loop ----

  function Accepted(lines: seq<Fields>): (r: seq<Fields>)
    ensures forall f :: f in r ==> Counts(f)
  {
    if lines == [] then []
    else Accepted(lines[..|lines| - 1]) + if Counts(lines[|lines| - 1]) then [lines[|lines| - 1]] else []
  }

  predicate AllCount(fs: seq<Fields>) { forall i :: 0 <= i < |fs| ==> Counts(fs[i]) }

  function Names(fs: seq<Fields>): seq<string>
    requires AllCount(fs)
  {
    seq(|fs|, i requires 0 <= i < |fs| => Name(fs[i]))
  }

  /** The records of one name. */
  function Of(fs: seq<Fields>, name: string): (r: seq<Fields>)
    requires AllCount(fs)
    ensures AllCount(r)
  {
    if fs == [] then []
    else Of(fs[..|fs| - 1], name) + if Name(fs[|fs| - 1]) == name then [fs[|fs| - 1]] else []
  }

  /** Its entry: begun by the first record, then absorbing the others in order. */
  function EntryOf(rs: seq<Fields>, checks: Checks): Entry
    requires rs != [] && AllCount(rs)
  {
    if |rs| == 1 then Begin(rs[0], checks) else Absorb(EntryOf(rs[..|rs| - 1], checks), rs[|rs| - 1])
  }

  /** One entry per name, in the order the names first came, made of all the records of the name. */
  predicate Represents(entries: seq<Entry>, fs: seq<Fields>, checks: Checks) {
    && AllCount(fs)
    && |entries| == |Distinct(Names(fs))|
    && forall k :: 0 <= k < |entries| ==> IsEntryOf(entries[k], Distinct(Names(fs))[k], fs, checks)
  }

  predicate IsEntryOf(e: Entry, name: string, fs: seq<Fields>, checks: Checks)
    requires AllCount(fs)
  {
    Of(fs, name) != [] && e == EntryOf(Of(fs, name), checks)
  }

  /** dns_seen, as the place of each name's entry in dns_queries. */
  ghost predicate Indexed(seen: map<string, nat>, names: seq<string>) {
    && (forall name :: name in seen <==> name in names)
    && (forall name :: name in seen ==> seen[name] < |Distinct(names)| && Distinct(names)[seen[name]] == name)
  }

  lemma AcceptedSnoc(lines: seq<Fields>, i: nat)
    requires i < |lines|
    ensures Accepted(lines[..i + 1]) == Accepted(lines[..i]) + if Counts(lines[i]) then [lines[i]] else []
  {
    assert lines[..i + 1][..i] == lines[..i];
  }

  lemma NothingYet(checks: Checks)
    ensures Represents([], [], checks) && Indexed(map[], Names([]))
  {
  }

  method MergeRecords(out: string, checks: Checks) returns (queries: seq<Entry>, truncated: bool)
    ensures AllCount(Accepted(Rows(out)))
    ensures var names := Distinct(Names(Accepted(Rows(out))));
            && truncated == (|names| > 200)
            && |queries| == (if truncated then 200 else |names|)
            && forall k :: 0 <= k < |queries| ==> IsEntryOf(queries[k], names[k], Accepted(Rows(out)), checks)
  {
    hide Accepted, Distinct, Names, Of, EntryOf, Begin, IsEntryOf;
    var entries: seq<Entry>, seen: map<string, nat> := [], map[];
    var printed := SplitLines(out);
    ghost var lines := Rows(out);
    assert Accepted(lines[..0]) == [] by { AcceptedNone(); }
    NothingYet(checks);
    for i := 0 to |printed|
      invariant Represents(entries, Accepted(lines[..i]), checks)
      invariant Indexed(seen, Names(Accepted(lines[..i])))
    {
      var parts := SplitTabs(printed[i]);
      ghost var fs := Accepted(lines[..i]);
      AcceptedSnoc(lines, i);
      if Counts(parts) {
        MergeOne(entries, seen, fs, parts, checks);
      } else {
        assert fs + [] == fs;
      }
      if |parts| >= 4 {
        var name := if parts[2] != "" then parts[2] else parts[3];
        var isResponse := Lower(Strip(Field(parts, 7))) in ["1", "true"];
        if name != "" && name in seen {
          var e := entries[seen[name]];
          if isResponse && e.resolvedIp == "" {
            entries := entries[seen[name] := e.(resolvedIp := Field(parts, 4), cname := Or(e.cname, Field(parts, 5)),
                                                response := Or(e.response, parts[3]))];
          }
        } else if name != "" {
          seen := seen[name := |entries|];
          entries := entries + [Begin(parts, checks)];
        }
      }
    }
    assert lines[..|lines|] == lines;
    truncated := |entries| > CAP;
    queries := if |entries| > CAP then entries[..CAP] else entries;
  }

  lemma AcceptedNone()
    ensures Accepted([]) == []
  {
  }

  /** One record that counts: absorbed by its name's entry, or beginning a new one. */
  lemma MergeOne(entries: seq<Entry>, seen: map<string, nat>, fs: seq<Fields>, f: Fields, checks: Checks)
    requires Represents(entries, fs, checks) && Indexed(seen, Names(fs)) && Counts(f)
    ensures AllCount(fs + [f])
    ensures Name(f) in seen ==>
              && seen[Name(f)] < |entries|
              && Represents(entries[seen[Name(f)] := Absorb(entries[seen[Name(f)]], f)], fs + [f], checks)
              && Indexed(seen, Names(fs + [f]))
    ensures Name(f) !in seen ==>
              Represents(entries + [Begin(f, checks)], fs + [f], checks)
                  && Indexed(seen[Name(f) := |entries|], Names(fs + [f]))
  {
    hide Of, EntryOf, Distinct, Absorb, Name, Begin, Represents;
    RepresentsSize(entries, fs, checks);
    NamesSnoc(fs, f);
    DistinctSnoc(Names(fs), Name(f));
    if Name(f) in seen {
      MergeKnown(entries, seen[Name(f)], fs, f, checks);
    } else {
      MergeNew(entries, fs, f, checks);
    }
  }

  lemma RepresentsSize(entries: seq<Entry>, fs: seq<Fields>, checks: Checks)
    requires Represents(entries, fs, checks)
    ensures AllCount(fs) && |entries| == |Distinct(Names(fs))|
  {
  }

  lemma NamesSnoc(fs: seq<Fields>, f: Fields)
    requires AllCount(fs) && Counts(f)
    ensures AllCount(fs + [f]) && Names(fs + [f]) == Names(fs) + [Name(f)]
  {
  }

  lemma OfSnoc(fs: seq<Fields>, f: Fields, name: string)
    requires AllCount(fs) && Counts(f)
    ensures AllCount(fs + [f]) && Of(fs + [f], name) == Of(fs, name) + if Name(f) == name then [f] else []
  {
    assert (fs + [f])[..|fs|] == fs;
  }

  lemma {:induction false} OfNone(fs: seq<Fields>, name: string)
    requires AllCount(fs) && name !in Names(fs)
    ensures Of(fs, name) == []
  {
    if fs != [] {
      var front, last := fs[..|fs| - 1], fs[|fs| - 1];
      NamesSnoc(front, last);
      assert fs == front + [last];
      OfNone(front, name);
    }
  }

  lemma EntrySnoc(rs: seq<Fields>, f: Fields, checks: Checks)
    requires rs != [] && AllCount(rs) && Counts(f)
    ensures AllCount(rs + [f]) && EntryOf(rs + [f], checks) == Absorb(EntryOf(rs, checks), f)
  {
    assert (rs + [f])[..|rs|] == rs;
  }

  lemma MergeKnown(entries: seq<Entry>, at: nat, fs: seq<Fields>, f: Fields, checks: Checks)
    requires Represents(entries, fs, checks) && Counts(f) && at < |entries| && Distinct(Names(fs))[at] == Name(f)
    ensures Represents(entries[at := Absorb(entries[at], f)], fs + [f], checks)
  {
    hide Of, EntryOf, Distinct, Absorb, Name;
    var names := Distinct(Names(fs));
    NamesSnoc(fs, f);
    DistinctIs(Names(fs));
    assert names[at] in names;
    DistinctSnoc(Names(fs), Name(f));
    var more := entries[at := Absorb(entries[at], f)];
    forall k | 0 <= k < |more| ensures IsEntryOf(more[k], names[k], fs + [f], checks) {
      assert IsEntryOf(entries[k], names[k], fs, checks);
      OfSnoc(fs, f, names[k]);
      if k == at {
        EntrySnoc(Of(fs, names[k]), f, checks);
      } else {
        if k < at { assert names[k] != names[at]; } else { assert names[at] != names[k]; }
        assert Of(fs, names[k]) + [] == Of(fs, names[k]);
      }
    }
  }

  lemma MergeNew(entries: seq<Entry>, fs: seq<Fields>, f: Fields, checks: Checks)
    requires Represents(entries, fs, checks) && Counts(f) && Name(f) !in Names(fs)
    ensures Represents(entries + [Begin(f, checks)], fs + [f], checks)
  {
    hide Of, EntryOf, Distinct, Absorb, Name, Begin;
    NamesSnoc(fs, f);
    DistinctSnoc(Names(fs), Name(f));
    DistinctIs(Names(fs));
    var names, more := Distinct(Names(fs + [f])), entries + [Begin(f, checks)];
    forall k | 0 <= k < |more| ensures IsEntryOf(more[k], names[k], fs + [f], checks) {
      OfSnoc(fs, f, names[k]);
      if k == |entries| {
        OfNone(fs, Name(f));
        OneEntry(f, checks);
        assert Of(fs + [f], names[k]) == [f];
      } else {
        assert IsEntryOf(entries[k], names[k], fs, checks);
        assert names[k] in Names(fs);
        assert Of(fs, names[k]) + [] == Of(fs, names[k]);
      }
    }
  }

  lemma OneEntry(f: Fields, checks: Checks)
    requires Counts(f)
    ensures EntryOf([f], checks) == Begin(f, checks)
  {
  }

  // ---- what an entry ends up with ----

  function FirstNonEmpty(ss: seq<string>): string {
    if ss == [] then "" else if ss[0] != "" then ss[0] else FirstNonEmpty(ss[1..])
  }

  /** The answers among some records, in order. */
  function Answers(rs: seq<Fields>): (r: seq<Fields>)
    ensures forall f :: f in r ==> f in rs && IsResponse(f)
  {
    if rs == [] then [] else Answers(rs[..|rs| - 1]) + if IsResponse(rs[|rs| - 1]) then [rs[|rs| - 1]] else []
  }

  /** Up to and including the first answer that resolves. */
  function UntilResolved(answers: seq<Fields>): seq<Fields> {
    if answers == [] then []
    else if Field(answers[0], 4) != "" then [answers[0]]
    else [answers[0]] + UntilResolved(answers[1..])
  }

  /** The answers an entry takes in: none when its first record resolved. */
  function Taken(first: Fields, later: seq<Fields>): seq<Fields> {
    if Field(first, 4) != "" then [] else UntilResolved(Answers(later))
  }

  function Column(fs: seq<Fields>, k: nat): seq<string> { seq(|fs|, i requires 0 <= i < |fs| => Field(fs[i], k)) }

  lemma {:induction false} FirstNonEmptySnoc(ss: seq<string>, x: string)
    ensures FirstNonEmpty(ss + [x]) == Or(FirstNonEmpty(ss), x)
  {
    if ss == [] {
      assert [x][1..] == [];
    } else {
      assert (ss + [x])[1..] == ss[1..] + [x];
      FirstNonEmptySnoc(ss[1..], x);
    }
  }

  /** One more answer is taken exactly while none before it resolved. */
  lemma {:induction false} UntilSnoc(answers: seq<Fields>, f: Fields)
    ensures UntilResolved(answers + [f])
         == UntilResolved(answers) + if FirstNonEmpty(Column(answers, 4)) == "" then [f] else []
  {
    if answers == [] {
      assert UntilResolved([f]) == [f] by { assert [f][1..] == []; }
    } else {
      assert (answers + [f])[1..] == answers[1..] + [f];
      assert Column(answers, 4)[1..] == Column(answers[1..], 4);
      UntilSnoc(answers[1..], f);
    }
  }

  lemma TakenSnoc(first: Fields, later: seq<Fields>, f: Fields)
    ensures Taken(first, later + [f])
         == Taken(first, later)
            + if IsResponse(f) && Or(Field(first, 4), FirstNonEmpty(Column(Answers(later), 4))) == "" then [f] else []
  {
    hide IsResponse;
    assert (later + [f])[..|later|] == later;
    if IsResponse(f) { UntilSnoc(Answers(later), f); } else { assert Answers(later) + [] == Answers(later); }
  }

  /** What the entry of `rs` holds: the address is the first record's, or the first non-empty one
      among the later answers; the alias and the answered name are the first non-empty ones among the
      first record and the answers taken until one resolved; the rest is the first record's. */
  ghost predicate Filled(e: Entry, rs: seq<Fields>, checks: Checks)
    requires rs != [] && AllCount(rs)
  {
    var later, first := rs[1..], rs[0];
    var taken := Taken(first, later);
    && e.resolvedIp == Or(Field(first, 4), FirstNonEmpty(Column(Answers(later), 4)))
    && e.cname == Or(Field(first, 5), FirstNonEmpty(Column(taken, 5)))
    && e.response == Or(first[3], FirstNonEmpty(Column(taken, 3)))
    && e == Begin(first, checks).(resolvedIp := e.resolvedIp, cname := e.cname, response := e.response)
  }

  lemma FilledSnoc(e: Entry, rs: seq<Fields>, f: Fields, checks: Checks)
    requires rs != [] && AllCount(rs) && Counts(f) && Filled(e, rs, checks)
    ensures Filled(Absorb(e, f), rs + [f], checks)
  {
    hide IsResponse, Answers, Taken, FirstNonEmpty, Column, Begin;
    var later, first := rs[1..], rs[0];
    assert (rs + [f])[1..] == later + [f] && (rs + [f])[0] == first;
    TakenSnoc(first, later, f);
    AnswersSnoc(later, f);
    if IsResponse(f) {
      ColumnSnoc(Answers(later), f, 4);
      FirstNonEmptySnoc(Column(Answers(later), 4), Field(f, 4));
      if e.resolvedIp == "" {
        ColumnSnoc(Taken(first, later), f, 5);
        ColumnSnoc(Taken(first, later), f, 3);
        FirstNonEmptySnoc(Column(Taken(first, later), 5), Field(f, 5));
        FirstNonEmptySnoc(Column(Taken(first, later), 3), f[3]);
      } else {
        assert Taken(first, later) + [] == Taken(first, later);
      }
    } else {
      assert Taken(first, later) + [] == Taken(first, later);
      assert Answers(later) + [] == Answers(later);
    }
  }

  lemma {:induction false} EntryFilled(rs: seq<Fields>, checks: Checks)
    requires rs != [] && AllCount(rs)
    ensures Filled(EntryOf(rs, checks), rs, checks)
  {
    hide IsResponse, Filled, Absorb;
    if |rs| == 1 {
      FilledFirst(rs, checks);
    } else {
      var front, last := rs[..|rs| - 1], rs[|rs| - 1];
      EntryFilled(front, checks);
      FilledSnoc(EntryOf(front, checks), front, last, checks);
      assert rs == front + [last];
    }
  }

  lemma FilledFirst(rs: seq<Fields>, checks: Checks)
    requires |rs| == 1 && AllCount(rs)
    ensures Filled(Begin(rs[0], checks), rs, checks)
  {
    hide IsResponse;
    assert rs[1..] == [];
  }

  lemma AnswersSnoc(rs: seq<Fields>, f: Fields)
    ensures Answers(rs + [f]) == Answers(rs) + if IsResponse(f) then [f] else []
  {
    hide IsResponse;
    assert (rs + [f])[..|rs|] == rs;
  }

  lemma ColumnSnoc(fs: seq<Fields>, f: Fields, k: nat)
    ensures Column(fs + [f], k) == Column(fs, k) + [Field(f, k)]
  {
  }

  // ---- column by column ----

  /** "1", or "true" in whatever case. */
  predicate SaysTrue(s: string) {
    s == "1" || (|s| == 4 && s[0] in "tT" && s[1] in "rR" && s[2] in "uU" && s[3] in "eE")
  }

  lemma LowerIs(s: string, word: string)
    requires forall i :: 0 <= i < |word| ==> 'a' <= word[i] <= 'z'
    ensures Lower(s) == word <==>
              |s| == |word| && forall i :: 0 <= i < |s| ==> s[i] == word[i] || s[i] as int + 32 == word[i] as int
  {
    if Lower(s) == word {
      forall i | 0 <= i < |s| ensures s[i] == word[i] || s[i] as int + 32 == word[i] as int {
        assert Lower(s)[i] == word[i];
      }
    }
    if |s| == |word| && forall i :: 0 <= i < |s| ==> s[i] == word[i] || s[i] as int + 32 == word[i] as int {
      assert Lower(s) == word;
    }
  }

  /** A record is an answer exactly when its eighth field, white space aside, says true. */
  lemma AnswerIs(f: Fields)
    ensures IsResponse(f) <==> |f| > 7 && SaysTrue(Strip(f[7]))
  {
    hide Strip;
    var s := Strip(Field(f, 7));
    LowerIs(s, "true");
    assert Lower(s) == "1" <==> s == "1" by {
      if Lower(s) == "1" { assert Lower(s)[0] == '1'; }
    }
    StripIs("", "", "");
    assert "" + "" + "" == "";
  }

  lemma {:induction false} LStripIs(left: string, s: string)
    requires UserAgent.AllSpace(left) && (s != "" ==> !UserAgent.IsSpace(s[0]))
    ensures LStrip(left + s) == s
  {
    if left == "" {
      assert left + s == s;
    } else {
      assert (left + s)[1..] == left[1..] + s;
      LStripIs(left[1..], s);
    }
  }

  lemma {:induction false} RStripIs(s: string, right: string)
    requires UserAgent.AllSpace(right) && (s != "" ==> !UserAgent.IsSpace(s[|s| - 1]))
    ensures UserAgent.RStrip(s + right) == s
  {
    if right == "" {
      assert s + right == s;
    } else {
      var n := |right| - 1;
      assert (s + right)[..|s| + n] == s + right[..n];
      RStripIs(s, right[..n]);
    }
  }

  lemma {:induction false} RStripSpace(s: string)
    requires UserAgent.AllSpace(s)
    ensures UserAgent.RStrip(s) == ""
  {
    if s != "" { RStripSpace(s[..|s| - 1]); }
  }

  /** Stripping takes the white space at both ends and nothing else. */
  lemma StripIs(left: string, s: string, right: string)
    requires UserAgent.AllSpace(left) && UserAgent.AllSpace(right)
    requires s != "" ==> !UserAgent.IsSpace(s[0]) && !UserAgent.IsSpace(s[|s| - 1])
    ensures Strip(left + s + right) == s
  {
    if s == "" {
      RStripSpace(left + s + right);
    } else {
      RStripIs(left + s, right);
      LStripIs(left, s);
    }
  }

  /** Exactly the records with four fields and a name count. */
  lemma {:induction false} AcceptedAre(lines: seq<Fields>)
    ensures forall f :: f in Accepted(lines) <==> f in lines && |f| >= 4 && (f[2] != "" || f[3] != "")
  {
    if lines != [] {
      var front, last := lines[..|lines| - 1], lines[|lines| - 1];
      AcceptedAre(front);
      assert lines == front + [last];
    }
  }

  /** An entry's columns: time, source, query, type and the rest are its first record's, and its name is
      the query, or the answered name where the first record asks nothing. */
  lemma EntryColumns(fs: seq<Fields>, name: string, checks: Checks)
    requires AllCount(fs) && Of(fs, name) != []
    ensures var e, f := EntryOf(Of(fs, name), checks), Of(fs, name)[0];
            && e.time == f[0] && e.src == f[1] && e.query == f[2]
            && name == (if f[2] != "" then f[2] else f[3])
            && e.kind == (if |f| > 6 then f[6] else "")
            && e.isResponse == (|f| > 7 && SaysTrue(Strip(f[7])))
            && e.epoch == (if |f| > 8 && checks.epochOk(Strip(f[8])) then Some(Strip(f[8])) else None)
            && e.suspicious == checks.suspicious(name)
  {
    hide IsResponse, Strip, SaysTrue, EntryOf;
    EntryFilled(Of(fs, name), checks);
    OfNamed(fs, name);
    AnswerIs(Of(fs, name)[0]);
  }

  lemma {:induction false} OfNamed(fs: seq<Fields>, name: string)
    requires AllCount(fs)
    ensures forall i :: 0 <= i < |Of(fs, name)| ==> Name(Of(fs, name)[i]) == name
  {
    hide Name;
    if fs != [] { OfNamed(fs[..|fs| - 1], name); }
  }
}
