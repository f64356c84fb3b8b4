/** The list of each note's current revision, paged by the note's first entry while notes are
    added and edited between the reads (backend/case_notes/routes.py). */
module CasePaging {
  import opened FiniteSets
  import opened Insertion
  import opened Optional
  import opened StringOrder
  import opened CaseNotes
  import opened CaseNoteEdits

  /** (root.created_at, root.id): the order of the list and its cursor. */
  datatype Key = Key(created: int, id: string)

  datatype Item = Item(entry: Entry, key: Key)

  predicate Before(a: Key, b: Key) { a.created < b.created || (a.created == b.created && Less(a.id, b.id)) }

  lemma BeforeTotal(a: Key, b: Key)
    ensures Before(a, b) || a == b || Before(b, a)
  {
    LessTotal(a.id, b.id);
  }

  lemma BeforeTransitive(a: Key, b: Key, c: Key)
    requires Before(a, b) && Before(b, c)
    ensures Before(a, c)
  {
    if Less(a.id, b.id) && Less(b.id, c.id) { LessTransitive(a.id, b.id, c.id); }
  }

  lemma BeforeIrreflexive(a: Key)
    ensures !Before(a, a)
  {
    if Less(a.id, a.id) { LessAsymmetric(a.id, a.id); }
  }

  predicate Ascending(items: seq<Item>) { forall a, b :: 0 <= a < b < |items| ==> Before(items[a].key, items[b].key) }

  predicate ItemBefore(a: Item, b: Item) { Before(a.key, b.key) }

  /** ORDER BY: an item at its place among ordered ones. */
  lemma PlaceAscends(items: seq<Item>, it: Item)
    requires Ascending(items) && forall x :: x in items ==> x.key != it.key
    ensures Ascending(Place(items, it, ItemBefore))
  {
    forall x | x in items ensures Before(it.key, x.key) || Before(x.key, it.key) { BeforeTotal(it.key, x.key); }
    forall x, y | ItemBefore(x, y) && ItemBefore(y, it) ensures ItemBefore(x, it) {
      BeforeTransitive(x.key, y.key, it.key);
    }
    hide Before;
    PlaceOrders(items, it, ItemBefore, ItemBefore);
  }

  // ---- the query ----

  /** A row of the list: an entry of the incident that nothing corrects, joined with its chain and root. */
  function Listed(t: seq<Entry>, inc: string, i: nat): Option<Item>
    requires WellFormed(t) && i < |t|
  {
    if t[i].incident != inc || Corrected(t, t[i].id) then None
    else
      match RevisionMeta(t, inc, t[i].id)
      case None => None
      case Some(m) =>
        match Find(t, m.root)
        case None => None
        case Some(r) => Some(Item(t[i], Key(t[r].created, t[r].id)))
  }

  function Current(t: seq<Entry>, inc: string, n: nat): seq<Item>
    requires WellFormed(t) && n <= |t|
  {
    if n == 0 then []
    else
      match Listed(t, inc, n - 1)
      case None => Current(t, inc, n - 1)
      case Some(it) => Place(Current(t, inc, n - 1), it, ItemBefore)
  }

  function After(items: seq<Item>, cursor: Option<Key>): seq<Item> {
    if items == [] then []
    else After(items[..|items| - 1], cursor) +
         if cursor.None? || Before(cursor.value, items[|items| - 1].key) then [items[|items| - 1]] else []
  }

  datatype Page = Page(items: seq<Item>, next: Option<Key>)

  /** One request: limit + 1 rows are read to see whether more follow. */
  function Fetch(t: seq<Entry>, inc: string, cursor: Option<Key>, limit: nat): Page
    requires WellFormed(t) && limit >= 1
  {
    var rows := After(Current(t, inc, |t|), cursor);
    var found := if |rows| > limit + 1 then rows[..limit + 1] else rows;
    if |found| > limit then Page(found[..limit], Some(found[limit - 1].key)) else Page(found, None)
  }

  // ---- what the query returns ----

  /** The item of a note: its current revision under the key of its first entry. */
  ghost predicate IsCurrent(t: seq<Entry>, inc: string, r: nat, it: Item)
    requires WellFormed(t)
  {
    r < |t| && t[r].incident == inc && it.key == Key(t[r].created, t[r].id)
    && exists i: nat :: IsTip(t, i) && Root(t, i) == r && it.entry == t[i]
  }

  lemma ListedIs(t: seq<Entry>, inc: string, i: nat)
    requires WellFormed(t) && i < |t|
    ensures Listed(t, inc, i) == if t[i].incident == inc && IsTip(t, i)
                                 then Some(Item(t[i], Key(t[Root(t, i)].created, t[Root(t, i)].id))) else None
  {
    hide RevisionMeta, Root, Revision, IsTip, Corrected, Linked, UniqueCorrects;
    CorrectedIs(t, i);
    if t[i].incident == inc {
      RevisionMetaHas(t, inc, i);
      FindIs(t, Root(t, i));
    }
  }

  /** Below n, the list holds exactly the tips below n. */
  ghost predicate TipBelow(t: seq<Entry>, inc: string, n: nat, i: nat, it: Item)
    requires WellFormed(t) && n <= |t|
  {
    i < n && t[i].incident == inc && IsTip(t, i) && it == Item(t[i], Key(t[Root(t, i)].created, t[Root(t, i)].id))
  }

  lemma {:induction false} CurrentIs(t: seq<Entry>, inc: string, n: nat)
    requires WellFormed(t) && n <= |t|
    ensures forall it :: it in Current(t, inc, n) <==> exists i: nat :: TipBelow(t, inc, n, i, it)
  {
    hide WellFormed, Root, IsTip, Listed, Place;
    if n > 0 {
      var m := n - 1;
      CurrentIs(t, inc, m);
      ListedIs(t, inc, n - 1);
      if Listed(t, inc, n - 1).Some? {
        PlaceKeeps(Current(t, inc, n - 1), Listed(t, inc, n - 1).value, ItemBefore);
      }
      forall it ensures it in Current(t, inc, n) <==> exists i: nat :: TipBelow(t, inc, n, i, it) {
        if i: nat :| TipBelow(t, inc, m, i, it) { assert TipBelow(t, inc, n, i, it); }
        if i: nat :| TipBelow(t, inc, n, i, it) { assert i < n - 1 ==> TipBelow(t, inc, n - 1, i, it); }
        if Listed(t, inc, n - 1) == Some(it) { assert TipBelow(t, inc, n, n - 1, it); }
      }
    }
  }

  lemma TipKeysDiffer(t: seq<Entry>, inc: string, n: nat, i: nat, j: nat, x: Item, y: Item)
    requires WellFormed(t) && n <= |t| && TipBelow(t, inc, n, i, x) && TipBelow(t, inc, n, j, y) && i != j
    ensures x.key != y.key
  {
    hide Linked, UniqueCorrects, IsTip, Revision;
    if Root(t, i) == Root(t, j) {
      TipHasHighest(t, i, j);
      TipHasHighest(t, j, i);
      OneEntryPerRevision(t, i, j);
    }
  }

  lemma {:induction false} CurrentAscends(t: seq<Entry>, inc: string, n: nat)
    requires WellFormed(t) && n <= |t|
    ensures Ascending(Current(t, inc, n))
  {
    hide WellFormed, Root, IsTip, Listed, Place, Before;
    if n > 0 {
      CurrentAscends(t, inc, n - 1);
      ListedIs(t, inc, n - 1);
      if Listed(t, inc, n - 1).Some? {
        var it := Listed(t, inc, n - 1).value;
        CurrentIs(t, inc, n - 1);
        forall x | x in Current(t, inc, n - 1) ensures x.key != it.key {
          var i: nat :| TipBelow(t, inc, n - 1, i, x);
          assert TipBelow(t, inc, n, i, x) && TipBelow(t, inc, n, n - 1, it);
          TipKeysDiffer(t, inc, n, i, n - 1, x, it);
        }
        PlaceAscends(Current(t, inc, n - 1), it);
      }
    }
  }

  /** The unpaged list: every note of the incident once, in the order the notes were begun, each
      as its current revision. */
  lemma CurrentExact(t: seq<Entry>, inc: string)
    requires WellFormed(t)
    ensures Ascending(Current(t, inc, |t|))
    ensures forall it :: it in Current(t, inc, |t|) <==> exists r: nat :: IsCurrent(t, inc, r, it)
    ensures forall r: nat :: r < |t| && t[r].incident == inc && t[r].corrects.None? ==>
              exists it :: IsCurrent(t, inc, r, it)
  {
    hide WellFormed, Root, HasSuccessor, Current, Before;
    CurrentAscends(t, inc, |t|);
    CurrentIs(t, inc, |t|);
    forall it ensures it in Current(t, inc, |t|) <==> exists r: nat :: IsCurrent(t, inc, r, it) {
      if i: nat :| TipBelow(t, inc, |t|, i, it) { assert IsCurrent(t, inc, Root(t, i), it); }
      if r: nat :| IsCurrent(t, inc, r, it) {
        var i: nat :| IsTip(t, i) && Root(t, i) == r && it.entry == t[i];
        assert TipBelow(t, inc, |t|, i, it);
      }
    }
    forall r: nat | r < |t| && t[r].incident == inc && t[r].corrects.None?
      ensures exists it :: IsCurrent(t, inc, r, it)
    {
      var tip := TipExists(t, r);
      assert IsCurrent(t, inc, r, Item(t[tip], Key(t[r].created, t[r].id)));
    }
  }

  // ---- paging while the table grows ----

  /** The table at each page read: it only grows from one read to the next. */
  ghost predicate Growing(views: seq<seq<Entry>>) {
    && (forall k :: 0 <= k < |views| ==> WellFormed(views[k]))
    && (forall k :: 0 < k < |views| ==> views[k - 1] <= views[k])
  }

  /** The pages shown, and whether one without a next cursor was reached. */
  datatype Paged = Paged(pages: seq<seq<Item>>, ended: bool)

  function Walk(views: seq<seq<Entry>>, inc: string, cursor: Option<Key>, limit: nat): Paged
    requires Growing(views) && limit >= 1
  {
    if views == [] then Paged([], false)
    else
      var p := Fetch(views[0], inc, cursor, limit);
      if p.next.None? then Paged([p.items], true)
      else
        assert Growing(views[1..]) by { assert forall k :: 0 <= k < |views| - 1 ==> views[1..][k] == views[k + 1]; }
        var rest := Walk(views[1..], inc, p.next, limit);
        Paged([p.items] + rest.pages, rest.ended)
  }

  /** Everything shown, page after page. */
  function Concat(pages: seq<seq<Item>>): seq<Item> { if pages == [] then [] else pages[0] + Concat(pages[1..]) }

  function Shown(views: seq<seq<Entry>>, inc: string, cursor: Option<Key>, limit: nat): seq<Item>
    requires Growing(views) && limit >= 1
  {
    Concat(Walk(views, inc, cursor, limit).pages)
  }

  lemma ShownStep(views: seq<seq<Entry>>, inc: string, cursor: Option<Key>, limit: nat)
    requires Growing(views) && limit >= 1 && views != []
    ensures Growing(views[1..])
    ensures var p := Fetch(views[0], inc, cursor, limit);
            && (p.next.None? ==> Shown(views, inc, cursor, limit) == p.items)
            && (p.next.Some? ==> Shown(views, inc, cursor, limit) == p.items + Shown(views[1..], inc, p.next, limit))
  {
    hide Fetch, WellFormed;
    assert forall k :: 0 <= k < |views| - 1 ==> views[1..][k] == views[k + 1];
    var p := Fetch(views[0], inc, cursor, limit);
    var pages := Walk(views, inc, cursor, limit).pages;
    if p.next.None? {
      assert pages[1..] == [] && Concat([]) == [] && p.items + [] == p.items;
      assert Concat(pages) == pages[0] + Concat(pages[1..]);
    } else {
      assert pages[1..] == Walk(views[1..], inc, p.next, limit).pages;
    }
  }

  predicate Past(cursor: Option<Key>, k: Key) { cursor.None? || Before(cursor.value, k) }

  lemma {:induction false} AfterIs(items: seq<Item>, cursor: Option<Key>)
    requires Ascending(items)
    ensures Ascending(After(items, cursor))
    ensures forall it :: it in After(items, cursor) <==> it in items && Past(cursor, it.key)
  {
    hide Before;
    if items != [] {
      AfterIs(items[..|items| - 1], cursor);
      assert items == items[..|items| - 1] + [items[|items| - 1]];
    }
  }

  /** Of ordered items, exactly the first `n` come no later than the last of these. */
  lemma FirstOnes(rows: seq<Item>, n: nat, it: Item)
    requires Ascending(rows) && 0 < n <= |rows| && it in rows
    ensures it in rows[..n] <==> !Before(rows[n - 1].key, it.key)
  {
    hide Before;
    var last := rows[n - 1].key;
    var a :| 0 <= a < |rows| && rows[a] == it;
    BeforeIrreflexive(last);
    if a < n {
      assert rows[..n][a] == it;
      if a < n - 1 && Before(last, it.key) { BeforeTransitive(last, it.key, last); }
    } else if it in rows[..n] {
      var b :| 0 <= b < n && rows[b] == it;
      BeforeIrreflexive(it.key);
    }
  }

  /** The current items a cursor has not passed yet, in order. */
  function Ahead(t: seq<Entry>, inc: string, cursor: Option<Key>): seq<Item>
    requires WellFormed(t)
  {
    After(Current(t, inc, |t|), cursor)
  }

  /** A page holds the items past its cursor up to its next cursor, in order: the first ones of those
      past the cursor, at most `limit`; and it has a next cursor, the key of its last item, exactly
      when more than `limit` lie past its own. */
  lemma FetchIs(t: seq<Entry>, inc: string, cursor: Option<Key>, limit: nat)
    requires WellFormed(t) && limit >= 1
    ensures var p, rest := Fetch(t, inc, cursor, limit), Ahead(t, inc, cursor);
            && Ascending(rest) && (forall it :: it in rest <==> it in Current(t, inc, |t|) && Past(cursor, it.key))
            && |p.items| <= limit && p.items <= rest
            && (p.next.Some? <==> |rest| > limit) && (p.next.None? ==> p.items == rest)
            && (p.next.Some? ==> |p.items| == limit && p.next == Some(p.items[limit - 1].key))
    ensures var p := Fetch(t, inc, cursor, limit);
            && Ascending(p.items)
            && forall it :: it in p.items <==>
                 it in Current(t, inc, |t|) && Past(cursor, it.key) && (p.next.None? || !Before(p.next.value, it.key))
  {
    hide Current, WellFormed, Before, Past, After;
    CurrentAscends(t, inc, |t|);
    AfterIs(Current(t, inc, |t|), cursor);
    var rows := After(Current(t, inc, |t|), cursor);
    var p := Fetch(t, inc, cursor, limit);
    if p.next.Some? {
      assert p.items == rows[..limit];
      forall it | it in rows ensures it in p.items <==> !Before(p.next.value, it.key) { FirstOnes(rows, limit, it); }
    }
  }

  lemma {:induction false} WalkAscends(views: seq<seq<Entry>>, inc: string, cursor: Option<Key>, limit: nat)
    requires Growing(views) && limit >= 1
    ensures Ascending(Shown(views, inc, cursor, limit))
    ensures forall it :: it in Shown(views, inc, cursor, limit) ==> Past(cursor, it.key)
  {
    hide Fetch, WellFormed, Before, Current;
    if views != [] {
      ShownStep(views, inc, cursor, limit);
      FetchIs(views[0], inc, cursor, limit);
      var p := Fetch(views[0], inc, cursor, limit);
      if p.next.Some? {
        var rest := Shown(views[1..], inc, p.next, limit);
        WalkAscends(views[1..], inc, p.next, limit);
        var last := p.items[limit - 1];
        forall a, b | 0 <= a < |p.items| && 0 <= b < |rest| ensures Before(p.items[a].key, rest[b].key) {
          assert rest[b] in rest;
          if a < limit - 1 { BeforeTransitive(p.items[a].key, last.key, rest[b].key); }
        }
        forall it | it in rest ensures Past(cursor, it.key) {
          assert last in p.items;
          if cursor.Some? { BeforeTransitive(cursor.value, last.key, it.key); }
        }
      }
    }
  }

  /** The item is a note's current revision, and its key the note's, in the table the k-th page was read from. */
  ghost predicate ShownIn(views: seq<seq<Entry>>, inc: string, k: nat, it: Item)
    requires Growing(views)
  {
    k < |views| && exists r: nat :: IsCurrent(views[k], inc, r, it)
  }

  /** Every item of a page was current when that page was read. */
  lemma {:induction false} PagesCurrent(views: seq<seq<Entry>>, inc: string, cursor: Option<Key>, limit: nat)
    requires Growing(views) && limit >= 1
    ensures var pages := Walk(views, inc, cursor, limit).pages;
            |pages| <= |views| && forall k: nat, it :: k < |pages| && it in pages[k] ==> ShownIn(views, inc, k, it)
  {
    hide Fetch, WellFormed, Before, Current, IsCurrent;
    if views != [] {
      FetchIs(views[0], inc, cursor, limit);
      CurrentExact(views[0], inc);
      var p := Fetch(views[0], inc, cursor, limit);
      var pages := Walk(views, inc, cursor, limit).pages;
      if p.next.Some? {
        ShownStep(views, inc, cursor, limit);
        PagesCurrent(views[1..], inc, p.next, limit);
        var rest := Walk(views[1..], inc, p.next, limit).pages;
        forall k: nat, it | k < |pages| && it in pages[k] ensures ShownIn(views, inc, k, it) {
          if k > 0 { assert pages[k] == rest[k - 1] && ShownIn(views[1..], inc, k - 1, it); }
        }
      }
    }
  }

  /** The note begun by entry r is shown. */
  ghost predicate Shows(items: seq<Item>, t: seq<Entry>, r: nat) {
    r < |t| && exists a :: 0 <= a < |items| && items[a].key == Key(t[r].created, t[r].id)
  }

  lemma {:induction false} WalkHas(views: seq<seq<Entry>>, inc: string, cursor: Option<Key>, limit: nat, r: nat)
    requires Growing(views) && limit >= 1 && Walk(views, inc, cursor, limit).ended
    requires r < |views[0]| && views[0][r].incident == inc && views[0][r].corrects.None?
    requires Past(cursor, Key(views[0][r].created, views[0][r].id))
    ensures Shows(Shown(views, inc, cursor, limit), views[0], r)
  {
    hide Fetch, WellFormed, Before, Current, IsCurrent;
    var t := views[0];
    ShownStep(views, inc, cursor, limit);
    FetchIs(t, inc, cursor, limit);
    CurrentExact(t, inc);
    var p := Fetch(t, inc, cursor, limit);
    var it :| IsCurrent(t, inc, r, it);
    CurrentKey(t, inc, r, it);
    if p.next.Some? && Before(p.next.value, it.key) {
      assert views[1..][0] == views[1] && t <= views[1];
      WalkHas(views[1..], inc, p.next, limit, r);
      var rest := Shown(views[1..], inc, p.next, limit);
      var a :| 0 <= a < |rest| && rest[a].key == it.key;
      assert (p.items + rest)[|p.items| + a].key == it.key;
    } else {
      assert it in p.items;
      var a :| 0 <= a < |p.items| && p.items[a] == it;
      assert Shown(views, inc, cursor, limit)[a] == it;
    }
  }

  lemma CurrentKey(t: seq<Entry>, inc: string, r: nat, it: Item)
    requires WellFormed(t) && IsCurrent(t, inc, r, it)
    ensures it.key == Key(t[r].created, t[r].id)
  {
  }

  /** Paging to the end while notes are added and edited between the views: every note there was
      at the first read is shown exactly once, the notes come in the order they were begun, and
      each item is its note's current revision when its page was read. */
  lemma PagingExact(views: seq<seq<Entry>>, inc: string, limit: nat, r: nat) returns (a: nat)
    requires Growing(views) && views != [] && limit >= 1 && Walk(views, inc, None, limit).ended
    requires r < |views[0]| && views[0][r].incident == inc && views[0][r].corrects.None?
    ensures var items := Shown(views, inc, None, limit);
            && a < |items| && items[a].key == Key(views[0][r].created, views[0][r].id)
            && (forall b :: 0 <= b < |items| && items[b].key == items[a].key ==> b == a)
            && Ascending(items)
    ensures var pages := Walk(views, inc, None, limit).pages;
            |pages| <= |views| && forall k: nat, it :: k < |pages| && it in pages[k] ==> ShownIn(views, inc, k, it)
  {
    hide Walk, Growing, Before, Shown, ShownIn;
    PagesCurrent(views, inc, None, limit);
    var items := Shown(views, inc, None, limit);
    WalkHas(views, inc, None, limit, r);
    WalkAscends(views, inc, None, limit);
    a :| 0 <= a < |items| && items[a].key == Key(views[0][r].created, views[0][r].id);
    BeforeIrreflexive(items[a].key);
  }

  // ---- paging comes to an end ----

  /** Every page but the last is full. */
  lemma {:induction false} PagesFull(views: seq<seq<Entry>>, inc: string, cursor: Option<Key>, limit: nat)
    requires Growing(views) && limit >= 1
    ensures var w := Walk(views, inc, cursor, limit);
            && (forall k :: 0 <= k < |w.pages| ==> |w.pages[k]| <= limit)
            && (forall k :: 0 <= k < |w.pages| - 1 ==> |w.pages[k]| == limit)
            && (!w.ended ==> |w.pages| == |views| && |Concat(w.pages)| == limit * |views|)
  {
    hide Fetch, WellFormed, Ahead;
    if views != [] {
      ShownStep(views, inc, cursor, limit);
      FetchIs(views[0], inc, cursor, limit);
      var p := Fetch(views[0], inc, cursor, limit);
      if p.next.Some? {
        PagesFull(views[1..], inc, p.next, limit);
        var pages, rest := Walk(views, inc, cursor, limit).pages, Walk(views[1..], inc, p.next, limit).pages;
        assert pages == [p.items] + rest && pages[1..] == rest;
        assert limit * |views| == limit + limit * (|views| - 1);
      }
    }
  }

  /** The keys of the notes there are. */
  ghost function Keys(t: seq<Entry>): set<Key> { set r | 0 <= r < |t| :: Key(t[r].created, t[r].id) }

  lemma KeysSize(t: seq<Entry>)
    ensures |Keys(t)| <= |t|
    decreases |t|
  {
    if t != [] {
      var n := |t| - 1;
      KeysSize(t[..n]);
      assert Keys(t) == Keys(t[..n]) + {Key(t[n].created, t[n].id)} by {
        assert forall r :: 0 <= r < n ==> t[..n][r] == t[r];
      }
    }
  }

  function KeysOf(items: seq<Item>): set<Key> { set a | 0 <= a < |items| :: items[a].key }

  lemma {:induction false} KeysOfSize(items: seq<Item>)
    requires Ascending(items)
    ensures |KeysOf(items)| == |items|
    decreases |items|
  {
    if items != [] {
      var n := |items| - 1;
      KeysOfSize(items[..n]);
      forall a | 0 <= a < n ensures items[a].key != items[n].key { BeforeIrreflexive(items[n].key); }
      assert KeysOf(items) == KeysOf(items[..n]) + {items[n].key} by {
        assert forall a :: 0 <= a < n ==> items[..n][a] == items[a];
      }
    }
  }

  lemma {:induction false} ShownKeys(views: seq<seq<Entry>>, inc: string, cursor: Option<Key>, limit: nat)
    requires Growing(views) && limit >= 1 && views != []
    ensures KeysOf(Shown(views, inc, cursor, limit)) <= Keys(views[|views| - 1])
  {
    hide Fetch, WellFormed, Before, Current, IsCurrent;
    var t, last := views[0], views[|views| - 1];
    ShownStep(views, inc, cursor, limit);
    FetchIs(t, inc, cursor, limit);
    CurrentExact(t, inc);
    var p := Fetch(t, inc, cursor, limit);
    GrowingTo(views);
    forall it | it in p.items ensures it.key in Keys(last) {
      var r: nat :| IsCurrent(t, inc, r, it);
      KeyThere(t, last, inc, r, it);
    }
    if p.next.Some? && |views| > 1 { ShownKeys(views[1..], inc, p.next, limit); }
  }

  lemma KeyThere(t: seq<Entry>, last: seq<Entry>, inc: string, r: nat, it: Item)
    requires WellFormed(t) && t <= last && IsCurrent(t, inc, r, it)
    ensures it.key in Keys(last)
  {
    hide WellFormed, IsTip;
    assert last[r] == t[r];
  }

  lemma {:induction false} GrowingTo(views: seq<seq<Entry>>)
    requires Growing(views) && views != []
    ensures views[0] <= views[|views| - 1]
  {
    hide WellFormed;
    if |views| > 1 {
      GrowingTo(views[..|views| - 1]);
      assert views[|views| - 2] <= views[|views| - 1];
    }
  }

  /** However many notes come while the pages are read: once there were as many reads as it takes to
      show every entry of the last view, page by page, and one more, paging has come to its end. */
  lemma PagingEnds(views: seq<seq<Entry>>, inc: string, limit: nat)
    requires Growing(views) && limit >= 1 && views != [] && limit * |views| > |views[|views| - 1]|
    ensures Walk(views, inc, None, limit).ended
  {
    hide Walk, Growing, Keys, KeysOf;
    if !Walk(views, inc, None, limit).ended {
      var items := Shown(views, inc, None, limit);
      PagesFull(views, inc, None, limit);
      WalkAscends(views, inc, None, limit);
      ShownKeys(views, inc, None, limit);
      KeysOfSize(items);
      KeysSize(views[|views| - 1]);
      SubsetSize(KeysOf(items), Keys(views[|views| - 1]));
    }
  }
}
