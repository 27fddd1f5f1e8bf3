/**
 Keyset pagination: list_documents and list_chunks of src/documents/service.py, list_jobs of
 src/ingestion/service.py. A table is the sequence of rows in the order the query asks for,
 largest key first; for list_chunks, which goes upwards, the key is minus the chunk index. A
 cursor is the key of the last row shown.
 */
module Paging {
  import opened Common

  type Key = int

  datatype Row = Row(key: Key, id: int)

  /** ORDER BY: equal keys may come in any order. */
  ghost predicate Sorted(t: seq<Row>) {
    forall i, k | 0 <= i < k < |t| :: t[i].key >= t[k].key
  }

  ghost predicate StrictlySorted(t: seq<Row>) {
    forall i, k | 0 <= i < k < |t| :: t[i].key > t[k].key
  }

  /** WHERE key < cursor, if there is a cursor. */
  function Below(t: seq<Row>, cursor: Option<Key>): seq<Row> {
    if t == [] then []
    else if cursor.None? || t[0].key < cursor.value then [t[0]] + Below(t[1..], cursor)
    else Below(t[1..], cursor)
  }

  /** One request: up to limit rows, and the cursor for the next page if a further row was fetched. */
  function Page(t: seq<Row>, cursor: Option<Key>, limit: nat): (seq<Row>, Option<Key>)
    requires limit >= 1
  {
    var rows := Below(t, cursor);
    var fetched := if |rows| > limit + 1 then rows[..limit + 1] else rows;
    if |fetched| > limit then (fetched[..limit], Some(fetched[limit - 1].key)) else (fetched, None)
  }

  function Flatten(pages: seq<seq<Row>>): seq<Row> {
    if pages == [] then [] else pages[0] + Flatten(pages[1..])
  }

  lemma {:induction false} BelowMembers(t: seq<Row>, cursor: Option<Key>, r: Row)
    ensures r in Below(t, cursor) <==> r in t && (cursor.None? || r.key < cursor.value)
  {
    if t != [] {
      BelowMembers(t[1..], cursor, r);
      assert t == [t[0]] + t[1..];
    }
  }

  lemma {:induction false} BelowIsStrict(t: seq<Row>, cursor: Option<Key>)
    requires StrictlySorted(t)
    ensures StrictlySorted(Below(t, cursor))
  {
    if t != [] {
      BelowIsStrict(t[1..], cursor);
      var b := Below(t[1..], cursor);
      forall i | 0 <= i < |b| ensures b[i].key < t[0].key {
        BelowMembers(t[1..], cursor, b[i]);
        var k :| 0 <= k < |t[1..]| && t[1..][k] == b[i];
        assert t[k + 1] == b[i];
      }
    }
  }

  lemma PageIsPrefix(t: seq<Row>, cursor: Option<Key>, limit: nat)
    requires limit >= 1
    ensures var (page, next) := Page(t, cursor, limit);
      var rows := Below(t, cursor);
      && |page| <= limit && page <= rows
      && (next.None? ==> page == rows)
      && (next.Some? ==> |page| == limit < |rows| && next.value == rows[limit - 1].key)
  {
  }

  /** Below the cursor, a row is on the page or below the next cursor. */
  lemma PageMissesNothing(t: seq<Row>, cursor: Option<Key>, limit: nat, r: Row)
    requires limit >= 1 && StrictlySorted(t) && r in t && (cursor.None? || r.key < cursor.value)
    ensures var (page, next) := Page(t, cursor, limit);
      r in page || (next.Some? && r.key < next.value)
  {
    var (page, next) := Page(t, cursor, limit);
    var rows := Below(t, cursor);
    PageIsPrefix(t, cursor, limit);
    BelowIsStrict(t, cursor);
    BelowMembers(t, cursor, r);
    var k :| 0 <= k < |rows| && rows[k] == r;
    if k < |page| {
      assert page[k] == r;
    }
  }

  lemma PageRow(t: seq<Row>, cursor: Option<Key>, limit: nat, i: nat)
    requires limit >= 1 && StrictlySorted(t) && i < |Page(t, cursor, limit).0|
    ensures var (page, next) := Page(t, cursor, limit);
      && page[i] in t && (cursor.None? || page[i].key < cursor.value)
      && (next.Some? ==> page[i].key >= next.value)
  {
    var (page, next) := Page(t, cursor, limit);
    var rows := Below(t, cursor);
    PageIsPrefix(t, cursor, limit);
    BelowIsStrict(t, cursor);
    assert page[i] == rows[i] && rows[i] in rows;
    BelowMembers(t, cursor, rows[i]);
  }

  /** What one page shows, and what it leaves for the cursor it hands out. */
  lemma PageFacts(t: seq<Row>, cursor: Option<Key>, limit: nat)
    requires limit >= 1 && StrictlySorted(t)
    ensures var (page, next) := Page(t, cursor, limit);
      && StrictlySorted(page) && |page| <= limit
      && (forall r | r in page :: r in t && (cursor.None? || r.key < cursor.value))
      && (next.Some? ==> (forall r | r in page :: r.key >= next.value) && (cursor.Some? ==> next.value < cursor.value))
      && (forall r | r in t && (cursor.None? || r.key < cursor.value) ::
            r in page || (next.Some? && r.key < next.value))
  {
    var (page, next) := Page(t, cursor, limit);
    PageIsPrefix(t, cursor, limit);
    BelowIsStrict(t, cursor);
    forall r | r in page
      ensures r in t && (cursor.None? || r.key < cursor.value) && (next.Some? ==> r.key >= next.value)
    {
      var i :| 0 <= i < |page| && page[i] == r;
      PageRow(t, cursor, limit, i);
    }
    if next.Some? {
      PageRow(t, cursor, limit, limit - 1);
    }
    forall r | r in t && (cursor.None? || r.key < cursor.value)
      ensures r in page || (next.Some? && r.key < next.value)
    {
      PageMissesNothing(t, cursor, limit, r);
    }
  }

  lemma JoinStrict(a: seq<Row>, b: seq<Row>, key: Key)
    requires StrictlySorted(a) && StrictlySorted(b)
    requires forall r | r in a :: r.key >= key
    requires forall r | r in b :: r.key < key
    ensures StrictlySorted(a + b)
  {
    forall i, k | 0 <= i < k < |a + b| ensures (a + b)[i].key > (a + b)[k].key {
      if i < |a| <= k {
        assert a[i] in a && b[k - |a|] in b;
      }
    }
  }

  /** The rows below a key, where the key separates a sorted table. */
  lemma {:induction false} BelowSuffix(t: seq<Row>, key: Key, k: nat)
    requires k <= |t|
    requires forall i | 0 <= i < k :: t[i].key >= key
    requires forall i | k <= i < |t| :: t[i].key < key
    ensures Below(t, Some(key)) == t[k..]
  {
    if k == 0 {
      BelowAll(t, key);
    } else {
      BelowSuffix(t[1..], key, k - 1);
      assert t[1..][k - 1..] == t[k..];
    }
  }

  lemma {:induction false} BelowAll(t: seq<Row>, key: Key)
    requires forall i | 0 <= i < |t| :: t[i].key < key
    ensures Below(t, Some(key)) == t
  {
    if t != [] {
      BelowAll(t[1..], key);
    }
  }

  lemma {:induction false} BelowTwice(t: seq<Row>, cursor: Option<Key>, key: Key)
    requires cursor.Some? ==> key <= cursor.value
    ensures Below(Below(t, cursor), Some(key)) == Below(t, Some(key))
  {
    if t != [] {
      BelowTwice(t[1..], cursor, key);
    }
  }

  // ---------------------------------------------------------------- a walk over tables that may change

  /** The pages a client sees that follows next_cursor, when request i finds the table ts[i]. */
  function Walk(ts: seq<seq<Row>>, cursor: Option<Key>, limit: nat): seq<seq<Row>>
    requires limit >= 1
    decreases |ts|
  {
    if ts == [] then []
    else
      var (page, next) := Page(ts[0], cursor, limit);
      if next.None? then [page] else [page] + Walk(ts[1..], next, limit)
  }

  /** The client gets a page without next_cursor. */
  predicate Ends(ts: seq<seq<Row>>, cursor: Option<Key>, limit: nat)
    requires limit >= 1
    decreases |ts|
  {
    ts != [] &&
    var (_, next) := Page(ts[0], cursor, limit);
    next.Some? ==> Ends(ts[1..], next, limit)
  }

  ghost predicate AllStrict(ts: seq<seq<Row>>) {
    forall i | 0 <= i < |ts| :: StrictlySorted(ts[i])
  }

  lemma WalkUnfold(ts: seq<seq<Row>>, cursor: Option<Key>, limit: nat)
    requires limit >= 1 && ts != []
    ensures var (page, next) := Page(ts[0], cursor, limit);
      Flatten(Walk(ts, cursor, limit)) == if next.None? then page else page + Flatten(Walk(ts[1..], next, limit))
  {
    var (page, next) := Page(ts[0], cursor, limit);
    if next.None? {
      assert Flatten([page]) == page + Flatten([]);
    } else {
      assert Walk(ts, cursor, limit)[1..] == Walk(ts[1..], next, limit);
    }
  }

  /** Every row shown is below the cursor, and each page continues below the previous one. */
  lemma {:induction false} WalkDescends(ts: seq<seq<Row>>, cursor: Option<Key>, limit: nat)
    requires limit >= 1 && AllStrict(ts)
    ensures StrictlySorted(Flatten(Walk(ts, cursor, limit)))
    ensures forall r | r in Flatten(Walk(ts, cursor, limit)) :: cursor.None? || r.key < cursor.value
    decreases |ts|
  {
    if ts != [] {
      var (page, next) := Page(ts[0], cursor, limit);
      PageFacts(ts[0], cursor, limit);
      WalkUnfold(ts, cursor, limit);
      if next.Some? {
        WalkDescends(ts[1..], next, limit);
        JoinStrict(page, Flatten(Walk(ts[1..], next, limit)), next.value);
      }
    }
  }

  lemma {:induction false} WalkVisits(ts: seq<seq<Row>>, cursor: Option<Key>, limit: nat, r: Row)
    requires limit >= 1 && AllStrict(ts) && Ends(ts, cursor, limit)
    requires cursor.None? || r.key < cursor.value
    requires forall i | 0 <= i < |ts| :: r in ts[i]
    ensures r in Flatten(Walk(ts, cursor, limit))
    decreases |ts|
  {
    var (page, next) := Page(ts[0], cursor, limit);
    PageFacts(ts[0], cursor, limit);
    WalkUnfold(ts, cursor, limit);
    if r !in page {
      WalkVisits(ts[1..], next, limit, r);
    }
  }

  /**
   Whatever is inserted or deleted during a finished walk, a row that is there throughout is
   shown, no key is shown twice, and the keys come in order.
   */
  lemma WalkShowsLastingRowsOnce(ts: seq<seq<Row>>, limit: nat, r: Row)
    requires limit >= 1 && AllStrict(ts) && Ends(ts, None, limit)
    requires forall i | 0 <= i < |ts| :: r in ts[i]
    ensures r in Flatten(Walk(ts, None, limit))
    ensures StrictlySorted(Flatten(Walk(ts, None, limit)))
  {
    WalkVisits(ts, None, limit, r);
    WalkDescends(ts, None, limit);
  }

  // ---------------------------------------------------------------- how many pages

  /** Pages needed for n rows: at least one, else n / limit rounded up. */
  function Pages(n: nat, limit: nat): nat
    requires limit >= 1
  {
    if n <= limit then 1 else 1 + Pages(n - limit, limit)
  }

  /** The least number of pages, at least one, that holds n rows. */
  lemma {:induction false} PagesRoundUp(n: nat, limit: nat)
    requires limit >= 1
    ensures var p := Pages(n, limit); p >= 1 && n <= p * limit && (p > 1 ==> (p - 1) * limit < n)
  {
    if n > limit {
      PagesRoundUp(n - limit, limit);
      var p := Pages(n - limit, limit);
      assert (p + 1) * limit == p * limit + limit;
      assert p > 1 ==> p * limit == (p - 1) * limit + limit;
    }
  }

  lemma {:induction false} PagesMonotone(n: nat, m: nat, limit: nat)
    requires limit >= 1 && n <= m
    ensures Pages(n, limit) <= Pages(m, limit)
    decreases m
  {
    if n > limit {
      PagesMonotone(n - limit, m - limit, limit);
    }
  }

  lemma {:induction false} SubsetIsShorter(a: seq<Row>, b: seq<Row>)
    requires StrictlySorted(a) && StrictlySorted(b) && forall r | r in a :: r in b
    ensures |a| <= |b|
    decreases |b|
  {
    if a != [] {
      assert a[0] in b;
      var k :| 0 <= k < |b| && b[k] == a[0];
      forall r | r in a[1..] ensures r in b[k + 1..] {
        var i :| 0 <= i < |a[1..]| && a[1..][i] == r;
        assert a[i + 1] == r && a[i + 1] in a;
        var m :| 0 <= m < |b| && b[m] == r;
        assert m > k;
        assert b[k + 1..][m - k - 1] == r;
      }
      SubsetIsShorter(a[1..], b[k + 1..]);
    }
  }

  /** Rows at or below `top` are only ever removed. */
  ghost predicate OnlyNewer(t: seq<Row>, t': seq<Row>, top: Key) {
    forall r | r in t' && r.key <= top :: r in t
  }

  ghost predicate AllOnlyNewer(ts: seq<seq<Row>>, top: Key)
    decreases |ts|
  {
    |ts| <= 1 || (OnlyNewer(ts[0], ts[1], top) && AllOnlyNewer(ts[1..], top))
  }

  lemma LeftOver(t: seq<Row>, t': seq<Row>, cursor: Option<Key>, limit: nat, top: Key, r: Row)
    requires limit >= 1 && StrictlySorted(t) && OnlyNewer(t, t', top)
    requires forall q | q in Below(t, cursor) :: q.key <= top
    requires Page(t, cursor, limit).1.Some? && r in Below(t', Page(t, cursor, limit).1)
    ensures r.key <= top && r in Below(t, cursor)[limit..]
  {
    var next, rows := Page(t, cursor, limit).1, Below(t, cursor);
    BelowIsStrict(t, cursor);
    assert rows[limit - 1] in rows;
    BelowMembers(t, cursor, rows[limit - 1]);
    BelowMembers(t', next, r);
    BelowMembers(t, cursor, r);
    var k :| 0 <= k < |rows| && rows[k] == r;
    assert rows[limit..][k - limit] == r;
  }

  /** A full page leaves `limit` rows fewer for the next request, even on a changed table. */
  lemma NextRequest(t: seq<Row>, t': seq<Row>, cursor: Option<Key>, limit: nat, top: Key)
    requires limit >= 1 && StrictlySorted(t) && StrictlySorted(t') && OnlyNewer(t, t', top)
    requires forall r | r in Below(t, cursor) :: r.key <= top
    requires Page(t, cursor, limit).1.Some?
    ensures var next := Page(t, cursor, limit).1;
      && (forall r | r in Below(t', next) :: r.key <= top)
      && |Below(t', next)| + limit <= |Below(t, cursor)|
  {
    var next, rows := Page(t, cursor, limit).1, Below(t, cursor);
    var left := Below(t', next);
    BelowIsStrict(t, cursor);
    BelowIsStrict(t', next);
    forall r | r in left ensures r.key <= top && r in rows[limit..] {
      LeftOver(t, t', cursor, limit, top, r);
    }
    SubsetIsShorter(left, rows[limit..]);
  }

  lemma {:induction false} WalkEnds(ts: seq<seq<Row>>, cursor: Option<Key>, limit: nat, top: Key)
    requires limit >= 1 && AllStrict(ts) && AllOnlyNewer(ts, top)
    requires ts != [] && forall r | r in Below(ts[0], cursor) :: r.key <= top
    requires |ts| >= Pages(|Below(ts[0], cursor)|, limit)
    ensures Ends(ts, cursor, limit)
    ensures |Walk(ts, cursor, limit)| <= Pages(|Below(ts[0], cursor)|, limit)
    decreases |ts|
  {
    var n, next := |Below(ts[0], cursor)|, Page(ts[0], cursor, limit).1;
    if next.Some? {
      assert |ts| >= 2;
      NextRequest(ts[0], ts[1], cursor, limit, top);
      PagesMonotone(|Below(ts[1], next)|, n - limit, limit);
      WalkEnds(ts[1..], next, limit, top);
    }
  }

  /**
   If during the walk rows are only removed or inserted above everything the first request
   saw, the walk ends within as many pages as the first table needs.
   */
  lemma WalkIsFinite(ts: seq<seq<Row>>, limit: nat, top: Key)
    requires limit >= 1 && AllStrict(ts) && AllOnlyNewer(ts, top)
    requires ts != [] && forall r | r in ts[0] :: r.key <= top
    requires |ts| >= Pages(|ts[0]|, limit)
    ensures Ends(ts, None, limit)
    ensures |Walk(ts, None, limit)| <= Pages(|ts[0]|, limit)
  {
    BelowNothing(ts[0]);
    WalkEnds(ts, None, limit, top);
  }

  lemma {:induction false} BelowNothing(t: seq<Row>)
    ensures Below(t, None) == t
  {
    if t != [] {
      BelowNothing(t[1..]);
    }
  }

  // ---------------------------------------------------------------- a table that stays as it is

  function Copies(t: seq<Row>, m: nat): (ts: seq<seq<Row>>)
    ensures |ts| == m && forall i | 0 <= i < m :: ts[i] == t
  {
    if m == 0 then [] else [t] + Copies(t, m - 1)
  }

  /** The cursor after the first k rows. */
  function CursorAfter(t: seq<Row>, k: nat): Option<Key>
    requires k <= |t|
  {
    if k == 0 then None else Some(t[k - 1].key)
  }

  /** The rows before and behind position k have different keys. */
  predicate SplitsKeys(t: seq<Row>, k: nat)
    requires k <= |t|
  {
    0 < k < |t| ==> t[k - 1].key > t[k].key
  }

  /** So have those of every page boundary from position k on. */
  predicate PagesSplitKeys(t: seq<Row>, k: nat, limit: nat)
    requires limit >= 1 && k <= |t|
    decreases |t| - k
  {
    |t| - k <= limit || (SplitsKeys(t, k + limit) && PagesSplitKeys(t, k + limit, limit))
  }

  lemma {:induction false} StrictSplitsKeys(t: seq<Row>, k: nat, limit: nat)
    requires limit >= 1 && k <= |t| && StrictlySorted(t)
    ensures SplitsKeys(t, k) && PagesSplitKeys(t, k, limit)
    decreases |t| - k
  {
    if |t| - k > limit {
      StrictSplitsKeys(t, k + limit, limit);
    }
  }

  lemma FirstRows(t: seq<Row>, k: nat, limit: nat)
    requires limit >= 1 && k + limit <= |t|
    ensures t[k..][..limit] == t[k..k + limit]
    ensures k + limit < |t| ==> t[k..][..limit + 1][..limit] == t[k..k + limit]
  {
  }

  lemma PageFrom(t: seq<Row>, k: nat, limit: nat)
    requires limit >= 1 && Sorted(t) && k <= |t| && SplitsKeys(t, k)
    ensures Below(t, CursorAfter(t, k)) == t[k..]
    ensures Page(t, CursorAfter(t, k), limit) ==
      if |t| - k > limit then (t[k..k + limit], CursorAfter(t, k + limit)) else (t[k..], None)
  {
    if k == 0 {
      BelowNothing(t);
    } else {
      BelowSuffix(t, t[k - 1].key, k);
    }
    if |t| - k > limit {
      FirstRows(t, k, limit);
    }
  }

  /** The first of the remaining pages, and the walk that is left. */
  lemma OnePage(t: seq<Row>, k: nat, m: nat, limit: nat)
    requires limit >= 1 && Sorted(t) && k <= |t| && SplitsKeys(t, k) && m > 0
    ensures |t| - k <= limit ==>
      && Walk(Copies(t, m), CursorAfter(t, k), limit) == [t[k..]]
      && Ends(Copies(t, m), CursorAfter(t, k), limit)
    ensures |t| - k > limit ==>
      && Walk(Copies(t, m), CursorAfter(t, k), limit)
         == [t[k..k + limit]] + Walk(Copies(t, m - 1), CursorAfter(t, k + limit), limit)
      && (Ends(Copies(t, m), CursorAfter(t, k), limit) <==> Ends(Copies(t, m - 1), CursorAfter(t, k + limit), limit))
  {
    PageFrom(t, k, limit);
    assert Copies(t, m)[1..] == Copies(t, m - 1);
  }

  lemma FlattenOne(page: seq<Row>, pages: seq<seq<Row>>)
    ensures Flatten([page] + pages) == page + Flatten(pages)
    ensures Flatten([page]) == page
  {
    assert ([page] + pages)[1..] == pages;
    assert [page][1..] == [];
  }

  lemma TwoSlices(t: seq<Row>, k: nat, next: nat)
    requires k <= next <= |t|
    ensures t[k..next] + t[next..] == t[k..]
  {
  }

  lemma {:induction false} WalkRows(t: seq<Row>, k: nat, m: nat, limit: nat)
    requires limit >= 1 && Sorted(t) && k <= |t| && SplitsKeys(t, k) && PagesSplitKeys(t, k, limit)
    requires m >= Pages(|t| - k, limit)
    ensures Flatten(Walk(Copies(t, m), CursorAfter(t, k), limit)) == t[k..]
    decreases |t| - k
  {
    OnePage(t, k, m, limit);
    if |t| - k > limit {
      var next := k + limit;
      var later := Walk(Copies(t, m - 1), CursorAfter(t, next), limit);
      FlattenOne(t[k..next], later);
      WalkRows(t, next, m - 1, limit);
      TwoSlices(t, k, next);
    } else {
      FlattenOne(t[k..], []);
    }
  }

  lemma {:induction false} WalkPages(t: seq<Row>, k: nat, m: nat, limit: nat)
    requires limit >= 1 && Sorted(t) && k <= |t| && SplitsKeys(t, k) && PagesSplitKeys(t, k, limit)
    requires m >= Pages(|t| - k, limit)
    ensures Ends(Copies(t, m), CursorAfter(t, k), limit)
    ensures |Walk(Copies(t, m), CursorAfter(t, k), limit)| == Pages(|t| - k, limit)
    decreases |t| - k
  {
    OnePage(t, k, m, limit);
    if |t| - k > limit {
      WalkPages(t, k + limit, m - 1, limit);
    }
  }

  /** Following next_cursor shows the whole table in order, in max(1, ceil(n / limit)) pages. */
  lemma WalkShowsTable(t: seq<Row>, m: nat, limit: nat)
    requires limit >= 1 && StrictlySorted(t) && m >= Pages(|t|, limit)
    ensures Ends(Copies(t, m), None, limit)
    ensures |Walk(Copies(t, m), None, limit)| == Pages(|t|, limit)
    ensures Flatten(Walk(Copies(t, m), None, limit)) == t
  {
    StrictSplitsKeys(t, 0, limit);
    WalkPages(t, 0, m, limit);
    WalkRows(t, 0, m, limit);
  }

  // ---------------------------------------------------------------- equal keys

  /** What a client sees of a fixed table, with as many requests as it has rows and one more. */
  function Shown(t: seq<Row>, limit: nat): seq<Row>
    requires limit >= 1
  {
    Flatten(Walk(Copies(t, |t| + 1), None, limit))
  }

  ghost predicate AlwaysComplete(t: seq<Row>) {
    forall limit: nat | limit >= 1 :: Shown(t, limit) == t
  }

  lemma {:induction false} PagesAtMost(n: nat, limit: nat)
    requires limit >= 1
    ensures Pages(n, limit) <= n + 1
  {
    if n > limit {
      PagesAtMost(n - limit, limit);
    }
  }

  lemma {:induction false} BelowIsSorted(t: seq<Row>, cursor: Option<Key>)
    requires Sorted(t)
    ensures Sorted(Below(t, cursor))
  {
    if t != [] {
      BelowIsSorted(t[1..], cursor);
      var b := Below(t[1..], cursor);
      forall i | 0 <= i < |b| ensures b[i].key <= t[0].key {
        BelowMembers(t[1..], cursor, b[i]);
        var k :| 0 <= k < |t[1..]| && t[1..][k] == b[i];
        assert t[k + 1] == b[i];
      }
    }
  }

  lemma {:induction false} BelowSkips(t: seq<Row>, key: Key, n: nat)
    requires n <= |t| && forall i | 0 <= i < n :: t[i].key >= key
    ensures |Below(t, Some(key))| <= |t| - n
  {
    if n > 0 {
      BelowSkips(t[1..], key, n - 1);
    } else if t != [] {
      BelowSkips(t[1..], key, 0);
    }
  }

  /** A full page costs `limit` of the rows below the cursor, or more if its last key has equals. */
  lemma NextBelow(t: seq<Row>, cursor: Option<Key>, limit: nat)
    requires limit >= 1 && Sorted(t) && Page(t, cursor, limit).1.Some?
    ensures |Below(t, Page(t, cursor, limit).1)| + limit <= |Below(t, cursor)|
  {
    var rows, key := Below(t, cursor), Page(t, cursor, limit).1.value;
    PageIsPrefix(t, cursor, limit);
    assert rows[limit - 1] in rows;
    BelowMembers(t, cursor, rows[limit - 1]);
    BelowTwice(t, cursor, key);
    BelowIsSorted(t, cursor);
    BelowSkips(rows, key, limit);
  }

  lemma {:induction false} WalkAtMost(t: seq<Row>, cursor: Option<Key>, m: nat, limit: nat)
    requires limit >= 1 && Sorted(t)
    ensures |Flatten(Walk(Copies(t, m), cursor, limit))| <= |Below(t, cursor)|
    decreases m
  {
    if m > 0 {
      var ts, next := Copies(t, m), Page(t, cursor, limit).1;
      PageIsPrefix(t, cursor, limit);
      WalkUnfold(ts, cursor, limit);
      assert ts[1..] == Copies(t, m - 1);
      if next.Some? {
        NextBelow(t, cursor, limit);
        WalkAtMost(t, next, m - 1, limit);
      }
    }
  }

  /** A boundary between equal keys loses rows. */
  lemma {:induction false} WalkMisses(t: seq<Row>, k: nat, m: nat, limit: nat)
    requires limit >= 1 && Sorted(t) && k <= |t| && SplitsKeys(t, k) && !PagesSplitKeys(t, k, limit)
    ensures |Flatten(Walk(Copies(t, m), CursorAfter(t, k), limit))| < |t| - k
    decreases |t| - k
  {
    if m > 0 {
      var later := Walk(Copies(t, m - 1), CursorAfter(t, k + limit), limit);
      OnePage(t, k, m, limit);
      FlattenOne(t[k..k + limit], later);
      if SplitsKeys(t, k + limit) {
        WalkMisses(t, k + limit, m - 1, limit);
      } else {
        LessBelow(t, k + limit);
        WalkAtMost(t, CursorAfter(t, k + limit), m - 1, limit);
      }
    }
  }

  /** A cursor between equal keys skips a row. */
  lemma LessBelow(t: seq<Row>, k: nat)
    requires Sorted(t) && k <= |t| && !SplitsKeys(t, k)
    ensures |Below(t, CursorAfter(t, k))| < |t| - k
  {
    BelowSkips(t, t[k - 1].key, k + 1);
  }

  /** Pages of this length show a table in full exactly if no page boundary falls between equal keys. */
  lemma CompleteIffPagesSplitKeys(t: seq<Row>, limit: nat)
    requires limit >= 1 && Sorted(t)
    ensures Shown(t, limit) == t <==> PagesSplitKeys(t, 0, limit)
  {
    PagesAtMost(|t|, limit);
    assert CursorAfter(t, 0) == None && t[0..] == t;
    if PagesSplitKeys(t, 0, limit) {
      WalkRows(t, 0, |t| + 1, limit);
    } else {
      WalkMisses(t, 0, |t| + 1, limit);
    }
  }

  lemma {:induction false} SinglePagesSplit(t: seq<Row>, k: nat, i: nat)
    requires k < i < |t| && PagesSplitKeys(t, k, 1)
    ensures t[i - 1].key > t[i].key
    decreases |t| - k
  {
    if i > k + 1 {
      SinglePagesSplit(t, k + 1, i);
    }
  }

  /** So it is shown in full whatever the page length exactly if its keys are distinct. */
  lemma CompleteIffKeysDistinct(t: seq<Row>)
    requires Sorted(t)
    ensures AlwaysComplete(t) <==> forall i, k | 0 <= i < k < |t| :: t[i].key != t[k].key
  {
    if forall i, k | 0 <= i < k < |t| :: t[i].key != t[k].key {
      forall limit: nat | limit >= 1 ensures Shown(t, limit) == t {
        StrictSplitsKeys(t, 0, limit);
        CompleteIffPagesSplitKeys(t, limit);
      }
    } else {
      var i, k :| 0 <= i < k < |t| && t[i].key == t[k].key;
      CompleteIffPagesSplitKeys(t, 1);
      assert t[i].key >= t[k - 1].key >= t[k].key;
      if PagesSplitKeys(t, 0, 1) {
        SinglePagesSplit(t, 0, k);
      }
      assert Shown(t, 1) != t;
    }
  }
}
