/** The basic capture reader of the analysis worker (analysis-worker/worker.py). */
module Pcap {
  import opened FirstSeen
  import opened Insertion
  import opened Octets
  import opened Optional

  const LIMIT: nat := 5000
  const HEADER: nat := 24
  const RECORD: nat := 16
  const TOP: nat := 20
  const MAX_U32: nat := 0x1_0000_0000

  /** Four bytes as an unsigned integer, in either byte order. */
  function U32(little: bool, s: seq<Byte>): (n: nat)
    requires |s| == 4
    ensures n < MAX_U32
  {
    var a: int, b: int, c: int, d: int := s[0], s[1], s[2], s[3];
    if little then a + 0x100 * (b + 0x100 * (c + 0x100 * d)) else d + 0x100 * (c + 0x100 * (b + 0x100 * a))
  }

  function Magic(little: bool): (s: seq<Byte>)
    ensures |s| == 4
  {
    if little then [0xd4, 0xc3, 0xb2, 0xa1] else [0xa1, 0xb2, 0xc3, 0xd4]
  }

  // ---- what the reader visits ----

  /** The packets read from an offset on: until the records, the bytes or the limit end. */
  function Packets(content: seq<Byte>, little: bool, offset: nat, seen: nat): (ps: seq<seq<Byte>>)
    ensures |ps| + seen <= LIMIT || ps == []
    decreases |content| - offset
  {
    if offset + RECORD > |content| || seen >= LIMIT then []
    else
      var start := offset + RECORD;
      var size := U32(little, content[offset + 8..offset + 12]);
      if start + size > |content| then []
      else [content[start..start + size]] + Packets(content, little, start + size, seen + 1)
  }

  type Ip = s: seq<Byte> | |s| == 4 witness [0, 0, 0, 0]

  predicate IsIpv4(pkt: seq<Byte>) { |pkt| > 34 && pkt[12..14] == [0x08, 0x00] }

  function Source(pkt: seq<Byte>): Ip
    requires |pkt| > 34
  {
    pkt[26..30]
  }

  function Destination(pkt: seq<Byte>): Ip
    requires |pkt| > 34
  {
    pkt[30..34]
  }

  /** Source, then destination, of every IPv4 packet. */
  function Addresses(ps: seq<seq<Byte>>): seq<Ip> {
    if ps == [] then []
    else
      var p := ps[|ps| - 1];
      Addresses(ps[..|ps| - 1]) + if IsIpv4(p) then [Source(p), Destination(p)] else []
  }

  /** A dictionary as Python keeps it: in the order its keys came. */
  datatype Talker = Talker(ip: Ip, packets: nat)

  function Keys(ts: seq<Talker>): seq<Ip> { seq(|ts|, i requires 0 <= i < |ts| => ts[i].ip) }

  /** counts[ip] = counts.get(ip, 0) + 1: a known key stays where it is, a new one goes to the end. */
  function Bump(counts: seq<Talker>, ip: Ip): seq<Talker> {
    if ip in Keys(counts) then
      var k := FirstAt(Keys(counts), ip);
      counts[k := Talker(ip, counts[k].packets + 1)]
    else counts + [Talker(ip, 1)]
  }

  function Tally(ips: seq<Ip>): seq<Talker> {
    if ips == [] then [] else Bump(Tally(ips[..|ips| - 1]), ips[|ips| - 1])
  }

  /** Stable, by descending count: an item goes behind those with as many. */
  predicate AsMany(x: Talker, y: Talker) { x.packets >= y.packets }

  function SortDescending(ts: seq<Talker>): seq<Talker> {
    if ts == [] then [] else Place(SortDescending(ts[..|ts| - 1]), ts[|ts| - 1], AsMany)
  }

  function FirstFew(ts: seq<Talker>): seq<Talker> { if |ts| > TOP then ts[..TOP] else ts }

  /** The result of the reader: nothing for another magic number, else the top talkers and the
      number of packets parsed. */
  function Analysis(content: seq<Byte>): Option<(seq<Talker>, nat)> {
    if |content| >= 4 && (content[..4] == Magic(true) || content[..4] == Magic(false)) then
      var ps := Packets(content, content[..4] == Magic(true), HEADER, 0);
      Some((FirstFew(SortDescending(Tally(Addresses(ps)))), |ps|))
    else None
  }

  /** One turn of the reader. */
  lemma PacketsStep(content: seq<Byte>, little: bool, offset: nat, seen: nat)
    requires offset + RECORD <= |content| && seen < LIMIT
    ensures var start, size := offset + RECORD, U32(little, content[offset + 8..offset + 12]);
            var ps := Packets(content, little, offset, seen);
            && (start + size > |content| ==> ps == [])
            && (start + size <= |content| ==>
                  ps == [content[start..start + size]] + Packets(content, little, start + size, seen + 1))
  {
  }

  lemma PacketsEnd(content: seq<Byte>, little: bool, offset: nat, seen: nat)
    requires offset + RECORD > |content| || seen >= LIMIT
    ensures Packets(content, little, offset, seen) == []
  {
  }

  /** What the reader has of a capture once it visited `ps`. */
  lemma TallySnoc(ps: seq<seq<Byte>>, p: seq<Byte>)
    ensures Tally(Addresses(ps + [p]))
         == if IsIpv4(p) then Bump(Bump(Tally(Addresses(ps)), Source(p)), Destination(p)) else Tally(Addresses(ps))
  {
    AddressesSnoc(ps, p);
    if IsIpv4(p) {
      TallyTwo(Addresses(ps), Source(p), Destination(p));
    } else {
      assert Addresses(ps) + [] == Addresses(ps);
    }
  }

  method AnalyzeRawPcap(content: seq<Byte>) returns (r: Option<(seq<Talker>, nat)>)
    ensures r == Analysis(content)
  {
    hide Packets, Addresses, Tally, SortDescending, FirstFew, Bump, Magic, U32, Source, Destination;
    var magic := if |content| >= 4 then content[..4] else content;
    if magic != Magic(true) && magic != Magic(false) { return None; }
    var little := magic == Magic(true);
    var offset, packetsSeen, counts: seq<Talker> := HEADER, 0, [];
    ghost var done: seq<seq<Byte>> := [];
    TallyNone();
    while offset + RECORD <= |content| && packetsSeen < LIMIT
      invariant packetsSeen == |done|
      invariant Packets(content, little, HEADER, 0) == done + Packets(content, little, offset, packetsSeen)
      invariant counts == Tally(Addresses(done))
      decreases |content| - offset
    {
      PacketsStep(content, little, offset, packetsSeen);
      var size := U32(little, content[offset + 8..offset + 12]);
      offset := offset + RECORD;
      if offset + size > |content| {
        assert Packets(content, little, HEADER, 0) == done;
        break;
      }
      var pkt := content[offset..offset + size];
      offset := offset + size;
      packetsSeen := packetsSeen + 1;
      TallySnoc(done, pkt);
      if |pkt| > 34 && pkt[12..14] == [0x08, 0x00] {
        counts := Bump(Bump(counts, Source(pkt)), Destination(pkt));
      }
      done := done + [pkt];
    }
    if offset + RECORD > |content| || packetsSeen >= LIMIT { PacketsEnd(content, little, offset, packetsSeen); }
    assert Packets(content, little, HEADER, 0) == done;
    r := Some((FirstFew(SortDescending(counts)), packetsSeen));
  }

  lemma TallyNone()
    ensures Tally(Addresses([])) == []
  {
    var none: seq<Ip> := Addresses([]);
    assert none == [];
  }

  lemma TallyTwo(ips: seq<Ip>, a: Ip, b: Ip)
    ensures Tally(ips + [a, b]) == Bump(Bump(Tally(ips), a), b)
  {
    hide Bump;
    var one: seq<Ip> := ips + [a];
    assert (ips + [a, b])[..|ips| + 1] == one && one[..|ips|] == ips;
  }

  lemma AddressesSnoc(ps: seq<seq<Byte>>, p: seq<Byte>)
    ensures Addresses(ps + [p]) == Addresses(ps) + if IsIpv4(p) then [Source(p), Destination(p)] else []
  {
    assert (ps + [p])[..|ps|] == ps;
  }

  // ---- reading back what was written ----

  function Bytes4(little: bool, n: nat): (s: seq<Byte>)
    requires n < MAX_U32
    ensures |s| == 4
  {
    var q := n / 0x100;
    var a, b, c, d := n % 0x100, q % 0x100, q / 0x100 % 0x100, q / 0x100 / 0x100;
    if little then [a, b, c, d] else [d, c, b, a]
  }

  lemma U32Bytes4(little: bool, n: nat)
    requires n < MAX_U32
    ensures U32(little, Bytes4(little, n)) == n
  {
    var q := n / 0x100;
    assert n == 0x100 * q + n % 0x100 && q == 0x100 * (q / 0x100) + q % 0x100;
    assert q / 0x100 == 0x100 * (q / 0x100 / 0x100) + q / 0x100 % 0x100;
  }

  /** A record: time stamp, the packet, and its original length. */
  datatype Record = Record(stamp: seq<Byte>, data: seq<Byte>, original: seq<Byte>)

  predicate Writable(rs: seq<Record>) {
    forall i :: 0 <= i < |rs| ==> |rs[i].stamp| == 8 && |rs[i].original| == 4 && |rs[i].data| < MAX_U32
  }

  function WriteRecord(little: bool, r: Record): seq<Byte>
    requires |r.data| < MAX_U32
  {
    r.stamp + Bytes4(little, |r.data|) + r.original + r.data
  }

  function WriteRecords(little: bool, rs: seq<Record>): seq<Byte>
    requires Writable(rs)
  {
    if rs == [] then [] else WriteRecord(little, rs[0]) + WriteRecords(little, rs[1..])
  }

  /** A capture file: the magic number and twenty more header bytes, then the records. */
  function WriteFile(little: bool, rest: seq<Byte>, rs: seq<Record>): (s: seq<Byte>)
    requires |rest| == 20 && Writable(rs)
    ensures |s| >= HEADER
  {
    Magic(little) + rest + WriteRecords(little, rs)
  }

  function Data(rs: seq<Record>): seq<seq<Byte>> { seq(|rs|, i requires 0 <= i < |rs| => rs[i].data) }

  function Fewer(a: nat, b: nat): nat { if a < b then a else b }

  /** A record where the reader stands: it takes the packet and goes to the byte after it. */
  lemma ReadRecord(content: seq<Byte>, little: bool, offset: nat, r: Record, more: seq<Byte>, seen: nat)
    requires |r.stamp| == 8 && |r.original| == 4 && |r.data| < MAX_U32
    requires offset <= |content| && content[offset..] == WriteRecord(little, r) + more && seen < LIMIT
    ensures offset + RECORD + |r.data| + |more| == |content| && content[offset + RECORD + |r.data|..] == more
    ensures Packets(content, little, offset, seen)
         == [r.data] + Packets(content, little, offset + RECORD + |r.data|, seen + 1)
  {
    hide Packets, U32, Bytes4;
    PacketsStep(content, little, offset, seen);
    U32Bytes4(little, |r.data|);
    var tail := content[offset..];
    assert content[offset + 8..offset + 12] == tail[8..12] == Bytes4(little, |r.data|);
    assert content[offset + RECORD..offset + RECORD + |r.data|] == tail[RECORD..RECORD + |r.data|] == r.data;
    assert content[offset + RECORD + |r.data|..] == tail[RECORD + |r.data|..] == more;
  }

  lemma {:induction false} ReadRecords(content: seq<Byte>, little: bool, offset: nat, rs: seq<Record>, seen: nat)
    requires Writable(rs) && seen <= LIMIT && offset <= |content| && content[offset..] == WriteRecords(little, rs)
    ensures Packets(content, little, offset, seen) == Data(rs)[..Fewer(|rs|, LIMIT - seen)]
    decreases |rs|
  {
    hide Packets, WriteRecord;
    if rs == [] || seen == LIMIT {
      PacketsEnd(content, little, offset, seen);
    } else {
      ReadRecord(content, little, offset, rs[0], WriteRecords(little, rs[1..]), seen);
      ReadRecords(content, little, offset + RECORD + |rs[0].data|, rs[1..], seen + 1);
      assert Data(rs) == [rs[0].data] + Data(rs[1..]);
    }
  }

  /** From a written capture the reader visits exactly its packets, in order, up to the limit. */
  lemma ReadsWhatWasWritten(little: bool, rest: seq<Byte>, rs: seq<Record>)
    requires |rest| == 20 && Writable(rs)
    ensures Packets(WriteFile(little, rest, rs), little, HEADER, 0) == Data(rs)[..Fewer(|rs|, 5000)]
    ensures (WriteFile(little, rest, rs)[..4] == Magic(true)) == little
    ensures WriteFile(little, rest, rs)[..4] == Magic(true) || WriteFile(little, rest, rs)[..4] == Magic(false)
  {
    var f := WriteFile(little, rest, rs);
    assert f[HEADER..] == WriteRecords(little, rs);
    assert f[..4] == Magic(little);
    assert Magic(true)[0] != Magic(false)[0];
    ReadRecords(f, little, HEADER, rs, 0);
  }

  /** Of any file cut short, the reader visits a prefix of what it visits of the whole. */
  lemma {:induction false} CutVisitsPrefix(content: seq<Byte>, n: nat, little: bool, offset: nat, seen: nat)
    requires n <= |content|
    ensures Packets(content[..n], little, offset, seen) <= Packets(content, little, offset, seen)
    decreases |content| - offset
  {
    hide Packets, U32;
    if offset + RECORD > n || seen >= LIMIT {
      PacketsEnd(content[..n], little, offset, seen);
    } else {
      PacketsStep(content, little, offset, seen);
      PacketsStep(content[..n], little, offset, seen);
      assert content[..n][offset + 8..offset + 12] == content[offset + 8..offset + 12];
      var start, size := offset + RECORD, U32(little, content[offset + 8..offset + 12]);
      if start + size <= n {
        assert content[..n][start..start + size] == content[start..start + size];
        CutVisitsPrefix(content, n, little, start + size, seen + 1);
      }
    }
  }

  lemma {:induction false} CutVisits(content: seq<Byte>, n: nat, little: bool, offset: nat, rs: seq<Record>,
      seen: nat, k: nat)
    requires Writable(rs) && seen <= LIMIT && offset <= n <= |content|
        && content[offset..] == WriteRecords(little, rs) && k <= |rs|
    ensures Writable(rs[..k])
    ensures k <= |Packets(content[..n], little, offset, seen)| <==>
              k <= LIMIT - seen && offset + |WriteRecords(little, rs[..k])| <= n
    decreases k
  {
    hide Packets, WriteRecord;
    if k > 0 {
      assert rs[..k][1..] == rs[1..][..k - 1] && rs[..k][0] == rs[0];
      WriteLength(little, rs[0]);
      if offset + RECORD > n || seen == LIMIT {
        PacketsEnd(content[..n], little, offset, seen);
      } else {
        ReadRecord(content, little, offset, rs[0], WriteRecords(little, rs[1..]), seen);
        PacketsStep(content[..n], little, offset, seen);
        WriteSize(content, n, little, offset, rs[0], WriteRecords(little, rs[1..]));
        if offset + RECORD + |rs[0].data| <= n {
          CutVisits(content, n, little, offset + RECORD + |rs[0].data|, rs[1..], seen + 1, k - 1);
        }
      }
    }
  }

  lemma WriteLength(little: bool, r: Record)
    requires |r.stamp| == 8 && |r.original| == 4 && |r.data| < MAX_U32
    ensures |WriteRecord(little, r)| == RECORD + |r.data|
  {
  }

  lemma WriteSize(content: seq<Byte>, n: nat, little: bool, offset: nat, r: Record, more: seq<Byte>)
    requires |r.stamp| == 8 && |r.original| == 4 && |r.data| < MAX_U32
    requires n <= |content| && offset + RECORD <= n && content[offset..] == WriteRecord(little, r) + more
    ensures U32(little, content[..n][offset + 8..offset + 12]) == |r.data|
  {
    U32Bytes4(little, |r.data|);
    var tail := content[offset..];
    assert content[..n][offset + 8..offset + 12] == tail[8..12] == Bytes4(little, |r.data|);
  }

  /** A written capture cut at byte n is read up to the last record that ends within n: packet k
      is visited if and only if the header and the first k records fit. */
  lemma TruncationExact(little: bool, rest: seq<Byte>, rs: seq<Record>, n: nat, k: nat)
    requires |rest| == 20 && Writable(rs) && 0 < k <= |rs| && n <= |WriteFile(little, rest, rs)|
    ensures Writable(rs[..k])
    ensures k <= |Packets(WriteFile(little, rest, rs)[..n], little, HEADER, 0)| <==>
              k <= 5000 && |WriteFile(little, rest, rs[..k])| <= n
  {
    var f := WriteFile(little, rest, rs);
    assert f[HEADER..] == WriteRecords(little, rs);
    if n < HEADER { PacketsEnd(f[..n], little, HEADER, 0); } else { CutVisits(f, n, little, HEADER, rs, 0, k); }
  }

  // ---- byte order and frames ----

  /** Read in its own byte order the magic number is 0xa1b2c3d4 (section 4 of draft-ietf-opsawg-pcap);
      and one order is the other backwards. */
  lemma ByteOrder(little: bool, a: Byte, b: Byte, c: Byte, d: Byte)
    ensures U32(little, Magic(little)) == 0xa1b2c3d4 && Magic(true)[0] == 0xd4 && Magic(false)[0] == 0xa1
    ensures U32(true, [a, b, c, d]) == U32(false, [d, c, b, a])
    ensures U32(false, [a, b, c, d]) == 0x1000000 * a + 0x10000 * b + 0x100 * c + d
  {
  }

  /** An Ethernet frame: hardware addresses, type, and in it an IPv4 header up to its two addresses
      (section 3.1 of RFC 791), then whatever follows them. */
  function Frame(hardware: seq<Byte>, kind: seq<Byte>, header: seq<Byte>, src: Ip, dst: Ip, rest: seq<Byte>): seq<Byte>
    requires |hardware| == 12 && |kind| == 2 && |header| == 12
  {
    (hardware + kind + header) + (src + dst) + rest
  }

  lemma FrameParts(hardware: seq<Byte>, kind: seq<Byte>, header: seq<Byte>, src: Ip, dst: Ip, rest: seq<Byte>)
    requires |hardware| == 12 && |kind| == 2 && |header| == 12
    ensures var pkt := Frame(hardware, kind, header, src, dst, rest);
            |pkt| == 34 + |rest| && pkt[12..14] == kind && pkt[26..30] == src && pkt[30..34] == dst
  {
    var front, ends := hardware + kind + header, src + dst;
    var pkt := front + ends + rest;
    assert pkt[12..14] == front[12..14] == kind;
    assert pkt[26..30] == ends[..4] == src;
    assert pkt[30..34] == ends[4..] == dst;
  }

  lemma OneAddresses(pkt: seq<Byte>)
    ensures Addresses([pkt]) == if IsIpv4(pkt) then [Source(pkt), Destination(pkt)] else []
  {
    AddressesSnoc([], pkt);
    assert [] + [pkt] == [pkt];
  }

  /** Of a frame with the IPv4 type and something behind its addresses, source and destination are
      counted, in this order; of any other, and of a shorter packet, nothing. */
  lemma FrameAddresses(hardware: seq<Byte>, kind: seq<Byte>, header: seq<Byte>, src: Ip, dst: Ip, rest: seq<Byte>)
    requires |hardware| == 12 && |kind| == 2 && |header| == 12
    ensures Addresses([Frame(hardware, kind, header, src, dst, rest)])
         == if kind == [0x08, 0x00] && rest != [] then [src, dst] else []
    ensures forall pkt: seq<Byte> :: |pkt| <= 34 ==> Addresses([pkt]) == []
  {
    hide Frame, Addresses;
    FrameParts(hardware, kind, header, src, dst, rest);
    OneAddresses(Frame(hardware, kind, header, src, dst, rest));
    forall p: seq<Byte> | |p| <= 34 ensures Addresses([p]) == [] { OneAddresses(p); }
  }

  /** And packet after packet. */
  lemma {:induction false} AddressesConcat(a: seq<seq<Byte>>, b: seq<seq<Byte>>)
    ensures Addresses(a + b) == Addresses(a) + Addresses(b)
  {
    hide IsIpv4, Source, Destination;
    if b == [] {
      assert a + b == a;
    } else {
      var n := |b| - 1;
      assert (a + b)[..|a + b| - 1] == a + b[..n];
      AddressesConcat(a, b[..n]);
    }
  }

  // ---- the counts ----

  lemma {:induction false} TallyKeys(ips: seq<Ip>)
    ensures Keys(Tally(ips)) == Distinct(ips)
  {
    hide FirstAt;
    if ips != [] { TallyKeys(ips[..|ips| - 1]); }
  }

  /** The dictionary's counts are the numbers of occurrences. */
  lemma {:induction false} TallyCounts(ips: seq<Ip>)
    ensures forall k :: 0 <= k < |Tally(ips)| ==> Tally(ips)[k].packets == multiset(ips)[Tally(ips)[k].ip]
  {
    if ips != [] {
      hide Distinct, FirstAt;
      var front, last := ips[..|ips| - 1], ips[|ips| - 1];
      TallyCounts(front);
      TallyKeys(front);
      DistinctIs(front);
      assert ips == front + [last];
      assert multiset(ips) == multiset(front) + multiset{last};
      var ts, us := Tally(front), Tally(ips);
      forall k | 0 <= k < |us| ensures us[k].packets == multiset(ips)[us[k].ip] {
        if k < |ts| {
          assert Keys(ts)[k] == ts[k].ip;
          if last in Keys(ts) && k != FirstAt(Keys(ts), last) {
            assert Keys(ts)[k] != Keys(ts)[FirstAt(Keys(ts), last)];
          }
        }
      }
    }
  }

  function Ipv4Count(ps: seq<seq<Byte>>): nat {
    if ps == [] then 0 else Ipv4Count(ps[..|ps| - 1]) + if IsIpv4(ps[|ps| - 1]) then 1 else 0
  }

  function Sum(ts: seq<Talker>): nat { if ts == [] then 0 else ts[0].packets + Sum(ts[1..]) }

  lemma {:induction false} SumRaised(ts: seq<Talker>, k: nat)
    requires k < |ts|
    ensures Sum(ts[k := Talker(ts[k].ip, ts[k].packets + 1)]) == Sum(ts) + 1
  {
    var us := ts[k := Talker(ts[k].ip, ts[k].packets + 1)];
    if k == 0 {
      assert us[1..] == ts[1..];
    } else {
      assert us[1..] == ts[1..][k - 1 := us[k]];
      SumRaised(ts[1..], k - 1);
    }
  }

  lemma {:induction false} SumSnoc(ts: seq<Talker>, t: Talker)
    ensures Sum(ts + [t]) == Sum(ts) + t.packets
  {
    if ts != [] {
      assert (ts + [t])[1..] == ts[1..] + [t];
      SumSnoc(ts[1..], t);
    }
  }

  lemma BumpAddsOne(ts: seq<Talker>, ip: Ip)
    ensures Sum(Bump(ts, ip)) == Sum(ts) + 1
  {
    hide Sum;
    SumSnoc(ts, Talker(ip, 1));
    if ip in Keys(ts) { SumRaised(ts, FirstAt(Keys(ts), ip)); }
  }

  lemma {:induction false} TallySum(ips: seq<Ip>)
    ensures Sum(Tally(ips)) == |ips|
  {
    hide Bump;
    if ips != [] {
      TallySum(ips[..|ips| - 1]);
      BumpAddsOne(Tally(ips[..|ips| - 1]), ips[|ips| - 1]);
    }
  }

  /** Every IPv4 packet is counted twice, once for each end. */
  lemma {:induction false} CountsSumToTwice(ps: seq<seq<Byte>>)
    ensures |Addresses(ps)| == 2 * Ipv4Count(ps)
    ensures Sum(Tally(Addresses(ps))) == 2 * Ipv4Count(ps)
  {
    hide Tally, IsIpv4, Source, Destination;
    TallySum(Addresses(ps));
    if ps != [] { CountsSumToTwice(ps[..|ps| - 1]); }
  }

  // ---- the top talkers ----

  /** More packets, or as many and seen first. */
  predicate Ahead(ips: seq<Ip>, x: Talker, y: Talker) {
    && x.ip in ips && y.ip in ips
    && (x.packets > y.packets || (x.packets == y.packets && FirstAt(ips, x.ip) < FirstAt(ips, y.ip)))
  }

  predicate Ranked(ips: seq<Ip>, ts: seq<Talker>) { forall a, b :: 0 <= a < b < |ts| ==> Ahead(ips, ts[a], ts[b]) }

  predicate SeenBefore(ips: seq<Ip>, x: Talker, y: Talker) {
    x.ip in ips && y.ip in ips && FirstAt(ips, x.ip) < FirstAt(ips, y.ip)
  }

  lemma AheadWhenSeenBefore(ips: seq<Ip>, x: Talker, y: Talker)
    requires SeenBefore(ips, x, y)
    ensures x.packets >= y.packets ==> Ahead(ips, x, y)
    ensures y.packets > x.packets ==> Ahead(ips, y, x)
  {
  }

  lemma PlaceIs(ips: seq<Ip>, done: seq<Talker>, x: Talker)
    requires Ranked(ips, done) && x.ip in ips && forall y :: y in done ==> SeenBefore(ips, y, x)
    ensures Ranked(ips, Place(done, x, AsMany)) && multiset(Place(done, x, AsMany)) == multiset(done) + multiset{x}
  {
    var ahead := (y: Talker, z: Talker) => Ahead(ips, y, z);
    forall y | y in done ensures (ahead(y, x) || !AsMany(y, x)) && (ahead(x, y) || AsMany(y, x)) {
      AheadWhenSeenBefore(ips, y, x);
    }
    forall y, z | y in done && z in done && ahead(y, z) && AsMany(z, x) ensures ahead(y, x) {
      AheadWhenSeenBefore(ips, y, x);
    }
    hide FirstAt;
    PlaceKeeps(done, x, AsMany);
    PlaceOrders(done, x, AsMany, ahead);
  }

  lemma {:induction false} SortIs(ips: seq<Ip>, ts: seq<Talker>)
    requires forall a :: 0 <= a < |ts| ==> ts[a].ip in ips
    requires forall a, b :: 0 <= a < b < |ts| ==> SeenBefore(ips, ts[a], ts[b])
    ensures Ranked(ips, SortDescending(ts)) && multiset(SortDescending(ts)) == multiset(ts)
  {
    hide Ahead, SeenBefore, Place, FirstAt;
    if ts != [] {
      var front, last := ts[..|ts| - 1], ts[|ts| - 1];
      var done := SortDescending(front);
      SortIs(ips, front);
      forall y | y in done ensures SeenBefore(ips, y, last) {
        assert y in multiset(done);
        var a :| 0 <= a < |front| && front[a] == y;
        assert SeenBefore(ips, ts[a], ts[|ts| - 1]);
      }
      PlaceIs(ips, done, last);
      assert ts == front + [last];
    }
  }

  /** The talkers of a capture, before the cut at twenty. */
  lemma TalkersRanked(ips: seq<Ip>)
    ensures Ranked(ips, SortDescending(Tally(ips)))
    ensures multiset(SortDescending(Tally(ips))) == multiset(Tally(ips))
  {
    hide FirstAt, SortDescending, Tally, Distinct, Ranked;
    var ts := Tally(ips);
    TallyKeys(ips);
    DistinctIs(ips);
    forall a | 0 <= a < |ts| ensures ts[a].ip in ips { assert Keys(ts)[a] == ts[a].ip; }
    forall a, b | 0 <= a < b < |ts| ensures SeenBefore(ips, ts[a], ts[b]) {
      assert Keys(ts)[a] == ts[a].ip && Keys(ts)[b] == ts[b].ip;
    }
    SortIs(ips, ts);
  }

  /** Every address of the capture is among the talkers, with its number of occurrences. */
  lemma TalkersComplete(ips: seq<Ip>, x: Talker)
    ensures x in SortDescending(Tally(ips)) <==> x.ip in ips && x.packets == multiset(ips)[x.ip]
  {
    hide FirstAt, SortDescending, Tally, Distinct, Ranked;
    var ts := Tally(ips);
    TallyKeys(ips);
    DistinctIs(ips);
    TallyCounts(ips);
    TalkersRanked(ips);
    assert x in SortDescending(ts) <==> x in multiset(SortDescending(ts));
    if x in ts {
      var a :| 0 <= a < |ts| && ts[a] == x;
      assert Keys(ts)[a] == x.ip;
    }
    if x.ip in ips && x.packets == multiset(ips)[x.ip] {
      assert x.ip in Keys(ts);
      var a :| 0 <= a < |ts| && Keys(ts)[a] == x.ip;
      assert ts[a] == x;
    }
  }

  /** The result lists the twenty busiest addresses, each with its true count, ordered by count and
      then by when they were first seen; no address left out is ahead of one listed. */
  lemma TopTalkersExact(content: seq<Byte>, x: Talker)
    requires Analysis(content).Some?
    ensures var ips := Addresses(Packets(content, content[..4] == Magic(true), HEADER, 0));
            var top := Analysis(content).value.0;
            && Ranked(ips, top) && |top| <= 20
            && (x in top ==> x.ip in ips && x.packets == multiset(ips)[x.ip])
            && (x.ip in ips && x.packets == multiset(ips)[x.ip] && x !in top ==>
                  |top| == 20 && forall a :: 0 <= a < |top| ==> Ahead(ips, top[a], x))
  {
    hide Packets, Addresses, Tally, SortDescending, FirstAt, Magic;
    var ips := Addresses(Packets(content, content[..4] == Magic(true), HEADER, 0));
    var all := SortDescending(Tally(ips));
    TalkersRanked(ips);
    TalkersComplete(ips, x);
    if x in all {
      var b :| 0 <= b < |all| && all[b] == x;
      if b < |FirstFew(all)| { assert FirstFew(all)[b] == x; }
    }
  }
}
