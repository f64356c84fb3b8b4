/** One row of the audit log and what its hash covers (backend/audit/service.py).
    SHA-256 is a function parameter: nothing is assumed of it but the length of its hex digest,
    and, where a result needs it, that it is collision-free on the inputs at hand. */
module AuditRow {
  import opened Optional
  import opened StringOrder
  import opened Json

  // ---- time stamps (TIMESTAMP WITHOUT TIME ZONE, a naive datetime) ----

  datatype Stamp = Stamp(year: nat, month: nat, day: nat, hour: nat, minute: nat, second: nat, micro: nat)
  {
    predicate Valid() {
      1 <= year < 10000 && 1 <= month <= 12 && 1 <= day <= 31
      && hour < 24 && minute < 60 && second < 60 && micro < 1_000_000
    }

    /** Microseconds in a calendar of twelve months of 31 days: the order of datetimes. */
    function Tick(): int {
      (((((year * 12 + month) * 31 + day) * 24 + hour) * 60 + minute) * 60 + second) * 1_000_000 + micro
    }
  }

  type Timestamp = t: Stamp | t.Valid() witness Stamp(1970, 1, 1, 0, 0, 0, 0)

  /** The fields of a datetime, the largest unit first. */
  function Units(t: Timestamp): seq<nat> { [t.year, t.month, t.day, t.hour, t.minute, t.second, t.micro] }

  /** The first unit in which the two differ is the `k`-th, and it is smaller in `a`. */
  ghost predicate EarlierIn(a: Timestamp, b: Timestamp, k: nat) {
    k < 7 && (forall i :: 0 <= i < k ==> Units(a)[i] == Units(b)[i]) && Units(a)[k] < Units(b)[k]
  }

  ghost predicate Earlier(a: Timestamp, b: Timestamp) { exists k: nat :: EarlierIn(a, b, k) }

  lemma EarlierTick(a: Timestamp, b: Timestamp, k: nat)
    requires EarlierIn(a, b, k)
    ensures a.Tick() < b.Tick()
  {
    assert 0 < k ==> Units(a)[0] == Units(b)[0];
    assert 1 < k ==> Units(a)[1] == Units(b)[1];
    assert 2 < k ==> Units(a)[2] == Units(b)[2];
    assert 3 < k ==> Units(a)[3] == Units(b)[3];
    assert 4 < k ==> Units(a)[4] == Units(b)[4];
    assert 5 < k ==> Units(a)[5] == Units(b)[5];
  }

  lemma EarlierTotal(a: Timestamp, b: Timestamp)
    ensures Earlier(a, b) || a == b || Earlier(b, a)
  {
    if a != b {
      var k := if a.year != b.year then 0 else if a.month != b.month then 1 else if a.day != b.day then 2
          else if a.hour != b.hour then 3 else if a.minute != b.minute then 4
          else if a.second != b.second then 5 else 6;
      assert EarlierIn(a, b, k) || EarlierIn(b, a, k);
    }
  }

  /** Ticks compare as datetimes do, unit by unit. */
  lemma TickOrders(a: Timestamp, b: Timestamp)
    ensures a.Tick() < b.Tick() <==> Earlier(a, b)
    ensures a.Tick() == b.Tick() <==> a == b
  {
    EarlierTotal(a, b);
    if k: nat :| EarlierIn(a, b, k) { EarlierTick(a, b, k); }
    if k: nat :| EarlierIn(b, a, k) { EarlierTick(b, a, k); }
    hide EarlierIn;
  }

  /** `n` in decimal, zero-padded to `width` digits. */
  function Pad(n: nat, width: nat): (s: string)
    ensures |s| == width
  {
    if width == 0 then "" else Pad(n / 10, width - 1) + [Digit(n % 10)]
  }

  function Pow10(width: nat): nat { if width == 0 then 1 else 10 * Pow10(width - 1) }

  lemma {:induction false} PadText(n: nat, width: nat)
    requires n < Pow10(width)
    ensures AllDigits(Pad(n, width)) && Decimal(Pad(n, width)) == n
  {
    if width > 0 {
      PadText(n / 10, width - 1);
      assert Pad(n, width)[..width - 1] == Pad(n / 10, width - 1);
    }
  }

  function Date(t: Timestamp): (s: string)
    ensures |s| == 10
  {
    Pad(t.year, 4) + "-" + Pad(t.month, 2) + "-" + Pad(t.day, 2)
  }

  function TimeOfDay(t: Timestamp): (s: string)
    ensures |s| == 8
  {
    Pad(t.hour, 2) + ":" + Pad(t.minute, 2) + ":" + Pad(t.second, 2)
  }

  /** %Y-%m-%dT%H:%M:%S */
  function DateTime(t: Timestamp): (s: string)
    ensures |s| == 19
  {
    Date(t) + "T" + TimeOfDay(t)
  }

  /** datetime.isoformat(): the fraction is absent when it is zero. */
  function IsoFormat(t: Timestamp): string { DateTime(t) + if t.micro == 0 then "" else "." + Pad(t.micro, 6) }

  /** The characters from `i` to `j` are digits, and stand for `n`. */
  predicate NumberAt(s: string, i: nat, j: nat, n: nat) {
    i <= j <= |s| && AllDigits(s[i..j]) && Decimal(s[i..j]) == n
  }

  /** The text begins with the date and time of day of `t`, down to the second (section 5.6 of RFC 3339). */
  predicate BeginsWithTime(s: string, t: Timestamp) {
    && |s| >= 19
    && NumberAt(s, 0, 4, t.year) && s[4] == '-' && NumberAt(s, 5, 7, t.month) && s[7] == '-'
    && NumberAt(s, 8, 10, t.day) && s[10] == 'T'
    && NumberAt(s, 11, 13, t.hour) && s[13] == ':' && NumberAt(s, 14, 16, t.minute) && s[16] == ':'
    && NumberAt(s, 17, 19, t.second)
  }

  lemma DateText(t: Timestamp)
    ensures var s := Date(t);
            NumberAt(s, 0, 4, t.year) && s[4] == '-' && NumberAt(s, 5, 7, t.month) && s[7] == '-'
            && NumberAt(s, 8, 10, t.day)
  {
    assert Pow10(2) == 100;
    assert Pow10(4) == 10000;
    PadText(t.year, 4);
    PadText(t.month, 2);
    PadText(t.day, 2);
    hide Pad, Decimal, Pow10;
    var s := Date(t);
    assert s[0..4] == Pad(t.year, 4) && s[5..7] == Pad(t.month, 2) && s[8..10] == Pad(t.day, 2);
  }

  lemma TimeText(t: Timestamp)
    ensures var s := TimeOfDay(t);
            NumberAt(s, 0, 2, t.hour) && s[2] == ':' && NumberAt(s, 3, 5, t.minute) && s[5] == ':'
            && NumberAt(s, 6, 8, t.second)
  {
    assert Pow10(2) == 100;
    PadText(t.hour, 2);
    PadText(t.minute, 2);
    PadText(t.second, 2);
    hide Pad, Decimal, Pow10;
    var s := TimeOfDay(t);
    assert s[0..2] == Pad(t.hour, 2) && s[3..5] == Pad(t.minute, 2) && s[6..8] == Pad(t.second, 2);
  }

  lemma NumberWithin(s: string, i: nat, j: nat, n: nat, before: string, after: string)
    requires NumberAt(s, i, j, n)
    ensures NumberAt(before + s + after, |before| + i, |before| + j, n)
  {
    assert (before + s + after)[|before| + i..|before| + j] == s[i..j];
  }

  lemma DateTimeText(t: Timestamp, rest: string)
    ensures BeginsWithTime(DateTime(t) + rest, t)
  {
    hide NumberAt, Date, TimeOfDay;
    var d, c := Date(t), TimeOfDay(t);
    var s := DateTime(t) + rest;
    DateText(t);
    TimeText(t);
    assert s == "" + d + ("T" + c + rest) && s == (d + "T") + c + rest;
    NumberWithin(d, 0, 4, t.year, "", "T" + c + rest);
    NumberWithin(d, 5, 7, t.month, "", "T" + c + rest);
    NumberWithin(d, 8, 10, t.day, "", "T" + c + rest);
    NumberWithin(c, 0, 2, t.hour, d + "T", rest);
    NumberWithin(c, 3, 5, t.minute, d + "T", rest);
    NumberWithin(c, 6, 8, t.second, d + "T", rest);
    assert s[4] == d[4] && s[7] == d[7] && s[10] == 'T' && s[13] == c[2] && s[16] == c[5];
  }

  /** The time stamp in a payload: nineteen characters, and a fraction of six digits unless it is zero. */
  lemma IsoFormatText(t: Timestamp)
    ensures var s := IsoFormat(t);
            && BeginsWithTime(s, t) && |s| == (if t.micro == 0 then 19 else 26)
            && (t.micro != 0 ==> s[19] == '.' && NumberAt(s, 20, 26, t.micro))
  {
    DateTimeText(t, if t.micro == 0 then "" else "." + Pad(t.micro, 6));
    hide DateTime, BeginsWithTime;
    assert Pow10(6) == 1_000_000;
    PadText(t.micro, 6);
    if t.micro != 0 { assert IsoFormat(t)[20..26] == Pad(t.micro, 6); }
  }

  lemma IsoFormatInjective(a: Timestamp, b: Timestamp)
    requires IsoFormat(a) == IsoFormat(b)
    ensures a == b
  {
    IsoFormatText(a);
    IsoFormatText(b);
    hide IsoFormat, Decimal;
  }

  /** Equal texts that start with parts of one length agree on both parts. */
  lemma SplitAt(a: string, r: string, b: string, s: string)
    requires |a| == |b| && a + r == b + s
    ensures a == b && r == s
  {
    Drop(a, r);
    Drop(b, s);
    assert a == (a + r)[..|a|] && b == (b + s)[..|b|];
  }

  // ---- rows and their payloads ----

  /** A row of audit_logs. UUIDs are their canonical text. */
  datatype AuditRow = AuditRow(
    id: string, timestamp: Timestamp, userId: Option<string>, username: Option<string>,
    roleAtTime: Option<string>, sessionId: Option<string>, action: string, outcome: Option<string>,
    resourceType: Option<string>, resourceId: Option<string>, resourceLabel: Option<string>,
    details: Json, ipAddress: Option<string>, userAgent: Option<string>, requestMethod: Option<string>,
    requestPath: Option<string>, requestId: Option<string>,
    hashVersion: string, rowHash: string, prevHash: string)

  /** (timestamp, id), the order every reader of the log uses. */
  predicate Before(a: AuditRow, b: AuditRow) {
    a.timestamp.Tick() < b.timestamp.Tick() || (a.timestamp.Tick() == b.timestamp.Tick() && Less(a.id, b.id))
  }

  function Nullable(s: Option<string>): Json {
    match s case None => Null case Some(x) => Str(x)
  }

  /** Python truth of a JSON value. */
  predicate Truthy(v: Json) {
    match v
    case Null => false
    case Bool(b) => b
    case Int(n) => n != 0
    case Str(s) => s != ""
    case Arr(items) => items != []
    case Obj(members) => members != map[]
  }

  /** `details or {}`. */
  function OrEmpty(details: Json): Json { if Truthy(details) then details else Obj(map[]) }

  /** A Python dict display: of two entries with one key the later one stays. */
  function Dict(entries: seq<(string, Json)>): map<string, Json> {
    if entries == [] then map[]
    else var last := entries[|entries| - 1]; Dict(entries[..|entries| - 1])[last.0 := last.1]
  }

  function EntriesV1(row: AuditRow): seq<(string, Json)> {
    [("timestamp", Str(IsoFormat(row.timestamp))), ("user_id", Nullable(row.userId)),
     ("username", Nullable(row.username)), ("action", Str(row.action)),
     ("resource_type", Nullable(row.resourceType)), ("resource_id", Nullable(row.resourceId)),
     ("details", OrEmpty(row.details)), ("ip_address", Nullable(row.ipAddress))]
  }

  /** The members of the later payloads, `v` being the version they carry. */
  function EntriesV2(row: AuditRow, v: string): seq<(string, Json)> {
    EntriesV1(row)
    + [("v", Str(v)), ("role_at_time", Nullable(row.roleAtTime)), ("session_id", Nullable(row.sessionId)),
       ("outcome", Nullable(row.outcome)), ("resource_label", Nullable(row.resourceLabel)),
       ("request_method", Nullable(row.requestMethod)), ("request_path", Nullable(row.requestPath)),
       ("request_id", Nullable(row.requestId))]
  }

  function EntriesV3(row: AuditRow): seq<(string, Json)> {
    EntriesV2(row, "v3") + [("user_agent", Nullable(row.userAgent))]
  }

  /** `row.hash_version or "v1"`. */
  function Version(row: AuditRow): string { if row.hashVersion == "" then "v1" else row.hashVersion }

  predicate KnownVersion(row: AuditRow) { Version(row) in ["v1", "v2", "v3"] }

  /** The payload a stored row was hashed over, by its version; none for an unknown version. */
  function CanonicalPayload(row: AuditRow): Option<Json> {
    if Version(row) == "v1" then Some(Obj(Dict(EntriesV1(row))))
    else if Version(row) == "v2" then Some(Obj(Dict(EntriesV2(row, "v2"))))
    else if Version(row) == "v3" then Some(Obj(Dict(EntriesV3(row))))
    else None
  }

  // ---- what a payload fixes ----

  predicate SameV1(a: AuditRow, b: AuditRow) {
    a.timestamp == b.timestamp && a.userId == b.userId && a.username == b.username && a.action == b.action
    && a.resourceType == b.resourceType && a.resourceId == b.resourceId
    && OrEmpty(a.details) == OrEmpty(b.details) && a.ipAddress == b.ipAddress
  }

  predicate SameV2(a: AuditRow, b: AuditRow) {
    SameV1(a, b) && a.roleAtTime == b.roleAtTime && a.sessionId == b.sessionId && a.outcome == b.outcome
    && a.resourceLabel == b.resourceLabel && a.requestMethod == b.requestMethod
    && a.requestPath == b.requestPath && a.requestId == b.requestId
  }

  /** The two rows agree on every field their common version hashes. */
  predicate SameHashedFields(a: AuditRow, b: AuditRow) {
    Version(a) == Version(b)
    && if Version(a) == "v1" then SameV1(a, b)
       else if Version(a) == "v2" then SameV2(a, b)
       else SameV2(a, b) && a.userAgent == b.userAgent
  }

  ghost predicate DistinctKeys(d: seq<(string, Json)>) {
    forall i, j :: 0 <= i < j < |d| ==> d[i].0 != d[j].0
  }

  lemma {:induction false} DictLookup(d: seq<(string, Json)>, i: nat)
    requires DistinctKeys(d) && i < |d|
    ensures d[i].0 in Dict(d) && Dict(d)[d[i].0] == d[i].1
  {
    if i < |d| - 1 { DictLookup(d[..|d| - 1], i); }
  }

  lemma {:induction false} DictKeys(d: seq<(string, Json)>, k: string)
    requires forall i :: 0 <= i < |d| ==> d[i].0 != k
    ensures k !in Dict(d)
  {
    if d != [] { DictKeys(d[..|d| - 1], k); }
  }

  const KEYS: seq<string> := ["timestamp", "user_id", "username", "action", "resource_type", "resource_id",
    "details", "ip_address", "v", "role_at_time", "session_id", "outcome", "resource_label",
    "request_method", "request_path", "request_id", "user_agent"]

  lemma KeysDistinct()
    ensures forall i, j :: 0 <= i < j < |KEYS| ==> KEYS[i] != KEYS[j]
  {}

  lemma EntryKeys(row: AuditRow, v: string)
    ensures |EntriesV1(row)| == 8 && |EntriesV2(row, v)| == 16 && |EntriesV3(row)| == 17
    ensures forall i :: 0 <= i < 8 ==> EntriesV1(row)[i].0 == KEYS[i]
    ensures forall i :: 0 <= i < 16 ==> EntriesV2(row, v)[i].0 == KEYS[i]
    ensures forall i :: 0 <= i < 17 ==> EntriesV3(row)[i].0 == KEYS[i]
    ensures DistinctKeys(EntriesV1(row)) && DistinctKeys(EntriesV2(row, v)) && DistinctKeys(EntriesV3(row))
  {
    KeysDistinct();
  }

  predicate Member(m: map<string, Json>, k: string, v: Json) { k in m && m[k] == v }

  /** A text, or null where there is none. */
  predicate TextOrNull(m: map<string, Json>, k: string, text: Option<string>) {
    Member(m, k, if text.Some? then Str(text.value) else Null)
  }

  /** The members every payload has, and the fields they hold. */
  predicate HoldsV1(m: map<string, Json>, row: AuditRow) {
    && Member(m, "timestamp", Str(IsoFormat(row.timestamp))) && TextOrNull(m, "user_id", row.userId)
    && TextOrNull(m, "username", row.username) && Member(m, "action", Str(row.action))
    && TextOrNull(m, "resource_type", row.resourceType) && TextOrNull(m, "resource_id", row.resourceId)
    && Member(m, "details", OrEmpty(row.details)) && TextOrNull(m, "ip_address", row.ipAddress)
  }

  /** Those versions 2 and 3 add. */
  predicate HoldsV2(m: map<string, Json>, row: AuditRow) {
    && Member(m, "v", Str(Version(row))) && TextOrNull(m, "role_at_time", row.roleAtTime)
    && TextOrNull(m, "session_id", row.sessionId) && TextOrNull(m, "outcome", row.outcome)
    && TextOrNull(m, "resource_label", row.resourceLabel)
    && TextOrNull(m, "request_method", row.requestMethod)
    && TextOrNull(m, "request_path", row.requestPath) && TextOrNull(m, "request_id", row.requestId)
  }

  /** How many members a payload has. */
  function Size(version: string): nat { if version == "v1" then 8 else if version == "v2" then 16 else 17 }

  /** The payload's members, one by one, and no others. */
  predicate Holds(m: map<string, Json>, row: AuditRow) {
    && m.Keys == (set i | 0 <= i < Size(Version(row)) :: KEYS[i])
    && HoldsV1(m, row)
    && (Version(row) != "v1" ==> HoldsV2(m, row))
    && (Version(row) == "v3" ==> TextOrNull(m, "user_agent", row.userAgent))
  }

  lemma EntriesFor(row: AuditRow) returns (d: seq<(string, Json)>)
    requires KnownVersion(row)
    ensures CanonicalPayload(row) == Some(Obj(Dict(d))) && |d| == Size(Version(row)) && DistinctKeys(d)
    ensures forall i :: 0 <= i < |d| ==> d[i].0 == KEYS[i]
    ensures EntriesV1(row) <= d
    ensures Version(row) != "v1" ==> EntriesV2(row, Version(row)) <= d
    ensures Version(row) == "v3" ==> d == EntriesV3(row)
  {
    hide Dict, EntriesV1, DistinctKeys;
    EntryKeys(row, Version(row));
    d := if Version(row) == "v1" then EntriesV1(row)
        else if Version(row) == "v2" then EntriesV2(row, "v2") else EntriesV3(row);
  }

  lemma DictMembers(d: seq<(string, Json)>)
    requires DistinctKeys(d)
    ensures forall i :: 0 <= i < |d| ==> Member(Dict(d), d[i].0, d[i].1)
    ensures forall k :: k in Dict(d) ==> exists i :: 0 <= i < |d| && d[i].0 == k
  {
    hide Dict;
    forall i | 0 <= i < |d| ensures Member(Dict(d), d[i].0, d[i].1) { DictLookup(d, i); }
    forall k | k in Dict(d) ensures exists i :: 0 <= i < |d| && d[i].0 == k {
      if forall i :: 0 <= i < |d| ==> d[i].0 != k { DictKeys(d, k); }
    }
  }

  lemma KnownPayload(row: AuditRow)
    requires KnownVersion(row)
    ensures CanonicalPayload(row).Some? && CanonicalPayload(row).value.Obj?
    ensures Holds(CanonicalPayload(row).value.members, row)
  {
    hide Dict, EntriesV1, EntriesV2, EntriesV3, CanonicalPayload, HoldsV1, HoldsV2, Member, TextOrNull, DistinctKeys;
    var d := EntriesFor(row);
    DictMembers(d);
    var m := Dict(d);
    assert forall i :: 0 <= i < |d| ==> Member(m, KEYS[i], d[i].1);
    forall i | 0 <= i < |d| ensures KEYS[i] in m { MemberHas(m, KEYS[i], d[i].1); }
    MembersV1(m, d, row);
    if Version(row) != "v1" { MembersV2(m, d, row); }
    if Version(row) == "v3" { MembersV3(m, d, row); }
  }

  /** A stored row has a payload exactly when its version is known, an empty one standing for version 1;
      and which member of it holds which field. */
  lemma PayloadMembers(row: AuditRow)
    ensures CanonicalPayload(row).Some? <==> row.hashVersion in ["", "v1", "v2", "v3"]
    ensures Version(row) == "v1" <==> row.hashVersion in ["", "v1"]
    ensures CanonicalPayload(row).Some? ==>
              CanonicalPayload(row).value.Obj? && Holds(CanonicalPayload(row).value.members, row)
  {
    hide Dict, EntriesV1, EntriesV2, EntriesV3, Holds;
    if KnownVersion(row) { KnownPayload(row); }
  }

  lemma MemberHas(m: map<string, Json>, k: string, v: Json)
    requires Member(m, k, v)
    ensures k in m
  {}

  lemma MembersV1(m: map<string, Json>, d: seq<(string, Json)>, row: AuditRow)
    requires EntriesV1(row) <= d && forall i :: 0 <= i < |d| ==> Member(m, d[i].0, d[i].1)
    ensures HoldsV1(m, row)
  {
    hide Member;
    var e := EntriesV1(row);
    assert forall i :: 0 <= i < 8 ==> d[i] == e[i];
    assert Member(m, d[0].0, d[0].1) && Member(m, d[1].0, d[1].1) && Member(m, d[2].0, d[2].1)
        && Member(m, d[3].0, d[3].1);
    assert Member(m, d[4].0, d[4].1) && Member(m, d[5].0, d[5].1) && Member(m, d[6].0, d[6].1)
        && Member(m, d[7].0, d[7].1);
  }

  lemma MembersV2(m: map<string, Json>, d: seq<(string, Json)>, row: AuditRow)
    requires EntriesV2(row, Version(row)) <= d && forall i :: 0 <= i < |d| ==> Member(m, d[i].0, d[i].1)
    ensures HoldsV2(m, row)
  {
    hide Member;
    var e := EntriesV2(row, Version(row));
    assert forall i :: 0 <= i < 16 ==> d[i] == e[i];
    assert Member(m, d[8].0, d[8].1) && Member(m, d[9].0, d[9].1) && Member(m, d[10].0, d[10].1)
        && Member(m, d[11].0, d[11].1);
    assert Member(m, d[12].0, d[12].1) && Member(m, d[13].0, d[13].1) && Member(m, d[14].0, d[14].1)
        && Member(m, d[15].0, d[15].1);
  }

  lemma MembersV3(m: map<string, Json>, d: seq<(string, Json)>, row: AuditRow)
    requires d == EntriesV3(row) && forall i :: 0 <= i < |d| ==> Member(m, d[i].0, d[i].1)
    ensures TextOrNull(m, "user_agent", row.userAgent)
  {
    hide Member;
    assert Member(m, d[16].0, d[16].1);
  }

  /** `details or {}`: what Python takes for false is written as an empty object. */
  lemma OrEmptyIs(details: Json)
    ensures OrEmpty(details) ==
      if details in [Null, Bool(false), Int(0), Str(""), Arr([]), Obj(map[])] then Obj(map[]) else details
  {
  }

  lemma MembersFixV1(m: map<string, Json>, a: AuditRow, b: AuditRow)
    requires HoldsV1(m, a) && HoldsV1(m, b)
    ensures SameV1(a, b)
  {
    hide IsoFormat;
    IsoFormatInjective(a.timestamp, b.timestamp);
  }

  /** The member "v" tells the three payload shapes apart. */
  lemma VersionsDiffer(a: AuditRow, b: AuditRow)
    ensures Dict(EntriesV1(a)) != Dict(EntriesV2(b, "v2"))
    ensures Dict(EntriesV1(a)) != Dict(EntriesV3(b))
    ensures Dict(EntriesV2(a, "v2")) != Dict(EntriesV3(b))
  {
    EntryKeys(a, "v2");
    EntryKeys(b, "v2");
    KeysDistinct();
    assert KEYS[8] == "v";
    DictKeys(EntriesV1(a), "v");
    DictLookup(EntriesV2(a, "v2"), 8);
    DictLookup(EntriesV2(b, "v2"), 8);
    DictLookup(EntriesV3(b), 8);
  }

  lemma MembersFixV2(m: map<string, Json>, a: AuditRow, b: AuditRow)
    requires HoldsV1(m, a) && HoldsV1(m, b) && HoldsV2(m, a) && HoldsV2(m, b)
    ensures SameV2(a, b)
  {
    MembersFixV1(m, a, b);
    hide HoldsV1, SameV1;
  }

  lemma MembersFix(m: map<string, Json>, a: AuditRow, b: AuditRow)
    requires Holds(m, a) && Holds(m, b) && Version(a) == Version(b) && KnownVersion(a)
    ensures SameHashedFields(a, b)
  {
    hide HoldsV1, HoldsV2, SameV1, SameV2;
    if Version(a) == "v1" { MembersFixV1(m, a, b); } else { MembersFixV2(m, a, b); }
  }

  lemma EqualPayloads(a: AuditRow, b: AuditRow)
    requires KnownVersion(a) && KnownVersion(b) && CanonicalPayload(a) == CanonicalPayload(b)
    ensures Version(a) == Version(b)
  {
    hide Dict, EntriesV1, EntriesV2, EntriesV3;
    VersionsDiffer(a, b);
    VersionsDiffer(b, a);
  }

  lemma EqualFields(a: AuditRow, b: AuditRow)
    requires KnownVersion(a) && SameHashedFields(a, b)
    ensures CanonicalPayload(a) == CanonicalPayload(b)
  {
    hide Dict, IsoFormat;
  }

  /** Two payloads are equal exactly when the versions and every hashed field are. */
  lemma PayloadFixesFields(a: AuditRow, b: AuditRow)
    requires KnownVersion(a) && KnownVersion(b)
    ensures CanonicalPayload(a) == CanonicalPayload(b) <==> SameHashedFields(a, b)
  {
    hide CanonicalPayload, SameHashedFields, Holds;
    if CanonicalPayload(a) == CanonicalPayload(b) {
      EqualPayloads(a, b);
      KnownPayload(a);
      KnownPayload(b);
      MembersFix(CanonicalPayload(a).value.members, a, b);
    }
    if SameHashedFields(a, b) { EqualFields(a, b); }
  }

  // ---- the row hash ----

  /** SHA-256 and hexdigest(): 64 characters, whatever the input. */
  ghost predicate HexDigest(h: string -> string) { forall x :: |h(x)| == 64 }

  function Repeat(c: char, n: nat): (s: string)
    ensures |s| == n && forall i :: 0 <= i < n ==> s[i] == c
  {
    if n == 0 then "" else [c] + Repeat(c, n - 1)
  }

  /** What the first row of the log points at: 64 zeros. */
  const GENESIS: string := Repeat('0', 64)

  /** What a row's hash is taken of; empty for a row of unknown version. */
  function HashInput(row: AuditRow): string {
    match CanonicalPayload(row)
    case None => ""
    case Some(p) => row.prevHash + Print(p, Escaped)
  }

  function RowHash(h: string -> string, prev: string, payload: Json): string {
    h(prev + Print(payload, Escaped))
  }

  predicate VerifyRowHash(h: string -> string, row: AuditRow) {
    match CanonicalPayload(row)
    case None => false
    case Some(p) => RowHash(h, row.prevHash, p) == row.rowHash
  }

  lemma VerifiedHash(h: string -> string, row: AuditRow)
    requires VerifyRowHash(h, row)
    ensures KnownVersion(row) && row.rowHash == h(HashInput(row))
  {}

  /** On the given inputs `h` has no collision and never produces the genesis value. */
  ghost predicate CollisionFree(h: string -> string, inputs: set<string>) {
    && (forall x, y :: x in inputs && y in inputs && h(x) == h(y) ==> x == y)
    && (forall x :: x in inputs ==> h(x) != GENESIS)
  }

  /** The text hashed determines the previous hash and the payload. */
  lemma HashInputInjective(a: AuditRow, b: AuditRow)
    requires KnownVersion(a) && KnownVersion(b)
    requires |a.prevHash| == |b.prevHash| && HashInput(a) == HashInput(b)
    ensures a.prevHash == b.prevHash && CanonicalPayload(a) == CanonicalPayload(b)
  {
    hide Print, Dict, EntriesV1, EntriesV2, EntriesV3;
    var p, q := CanonicalPayload(a).value, CanonicalPayload(b).value;
    SplitAt(a.prevHash, Print(p, Escaped), b.prevHash, Print(q, Escaped));
    PrintInjective(p, q, Escaped);
  }

  /** Two verified rows with one row hash chain to one hash and agree on every hashed field. */
  lemma RowHashBinds(h: string -> string, a: AuditRow, b: AuditRow)
    requires VerifyRowHash(h, a) && VerifyRowHash(h, b) && a.rowHash == b.rowHash
    requires |a.prevHash| == |b.prevHash| && CollisionFree(h, {HashInput(a), HashInput(b)})
    ensures a.prevHash == b.prevHash && CanonicalPayload(a) == CanonicalPayload(b) && SameHashedFields(a, b)
  {
    hide SameHashedFields, HashInput, Print, CanonicalPayload, VerifyRowHash;
    VerifiedHash(h, a);
    VerifiedHash(h, b);
    HashInputInjective(a, b);
    PayloadFixesFields(a, b);
  }

  /** Changing a verified row in place, its two hashes kept, passes exactly when no field its
      version hashes has changed; relabelling it to another version never passes. */
  lemma AlteredRowDetected(h: string -> string, a: AuditRow, b: AuditRow)
    requires VerifyRowHash(h, a) && b.rowHash == a.rowHash && b.prevHash == a.prevHash
    requires CollisionFree(h, {HashInput(a), HashInput(b)})
    ensures VerifyRowHash(h, b) <==> KnownVersion(b) && SameHashedFields(a, b)
    ensures Version(b) != Version(a) ==> !VerifyRowHash(h, b)
  {
    if VerifyRowHash(h, b) { RowHashBinds(h, a, b); }
    if KnownVersion(b) { PayloadFixesFields(a, b); }
  }
}
