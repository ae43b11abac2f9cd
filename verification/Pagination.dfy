/**
 * Cursor pagination over the donation store in its default order:
 * newest first, equal timestamps by descending id.
 */
module Pagination {
  import opened Ordering
  import opened Transactions
  import opened TransactionFilters
  import opened Cursors

  /** `less(a, b)` stands for `a.localeCompare(b) < 0`. */
  type IdOrder = (string, string) -> bool

  function PositionOf(tx: Tx): Position { Position(tx.timestamp, tx.id) }

  predicate Precedes(less: IdOrder, a: Position, b: Position) {
    a.time > b.time || (a.time == b.time && less(b.id, a.id))
  }

  function TxBefore(less: IdOrder): (Tx, Tx) -> bool {
    (a: Tx, b: Tx) => Precedes(less, PositionOf(a), PositionOf(b))
  }

  function Select(p: Tx -> bool, s: seq<Tx>): seq<Tx> {
    if s == [] then [] else (if p(s[0]) then [s[0]] else []) + Select(p, s[1..])
  }

  datatype Page = Page(data: seq<Tx>, nextCursor: Cursor, hasMore: bool)

  const MAX_LIMIT := 100

  function PageLimit(limit: nat): nat { if limit < MAX_LIMIT then limit else MAX_LIMIT }

  /** The rows strictly past the cursor, in order. */
  function Past(less: IdOrder, d: Decoded, sorted: seq<Tx>): seq<Tx> {
    match d
    case Absent => sorted
    case NotANumber => []
    case At(pos) => Select(tx => Precedes(less, pos, PositionOf(tx)), sorted)
  }

  function Sorted(less: IdOrder, records: seq<Tx>, f: Filters): seq<Tx> {
    Sort(TxBefore(less), Select(tx => Matches(f, tx), records))
  }

  /** The first `limit` of the remaining rows, with a cursor for the last of them exactly when
      more follow. */
  function Cut(f: Filters, limit: nat, rest: seq<Tx>): Page {
    var n := PageLimit(limit);
    if |rest| <= n then Page(rest, NoCursor, false)
    else if n == 0 then Page([], NoCursor, true)
    else Page(rest[..n], EncodeCursor(f, PositionOf(rest[n - 1])), true)
  }

  /** One page: the matching records past the cursor, cut to the limit. */
  function PageSpec(less: IdOrder, records: seq<Tx>, f: Filters, limit: nat, cursor: Cursor): Page {
    Cut(f, limit, Past(less, DecodeCursor(cursor), Sorted(less, records, f)))
  }

  /** Records of one snapshot carry distinct ids: they are the values of a map keyed by id. */
  ghost predicate DistinctIds(s: seq<Tx>) {
    forall i, j :: 0 <= i < j < |s| ==> s[i].id != s[j].id
  }

  // ---------------------------------------------------------- the sorted list

  lemma PrecedesTransitive(less: IdOrder, a: Position, b: Position, c: Position)
    requires StrictTotalOrder(less) && Precedes(less, a, b) && Precedes(less, b, c)
    ensures Precedes(less, a, c)
  {
  }

  lemma PrecedesIsStrict(less: IdOrder)
    requires StrictTotalOrder(less)
    ensures StrictOrder(TxBefore(less))
  {
  }

  lemma {:induction false} SelectMembers(p: Tx -> bool, s: seq<Tx>)
    ensures forall tx :: tx in Select(p, s) <==> tx in s && p(tx)
  {
    if s != [] {
      SelectMembers(p, s[1..]);
      forall tx ensures tx in Select(p, s) <==> tx in s && p(tx) {
        assert tx in s <==> tx == s[0] || tx in s[1..];
      }
    }
  }

  lemma {:induction false} SelectDistinct(p: Tx -> bool, s: seq<Tx>)
    requires DistinctIds(s)
    ensures DistinctIds(Select(p, s))
  {
    if s != [] {
      SelectDistinct(p, s[1..]);
      SelectMembers(p, s[1..]);
      var t := Select(p, s[1..]);
      forall j | 0 <= j < |t| ensures t[j].id != s[0].id {
        assert t[j] in t;
      }
    }
  }

  function Kept(predicates: seq<Criterion>, anyMode: bool): Tx -> bool {
    (t: Tx) => Keeps(predicates, anyMode, t)
  }

  /** Filtering by the predicate list is filtering by what the request asked for. */
  lemma {:induction false} KeptAreMatches(f: Filters, predicates: seq<Criterion>, s: seq<Tx>)
    requires forall c :: c in predicates <==> Wanted(f, c)
    ensures Select(Kept(predicates, f.anyMode), s) == Select(tx => Matches(f, tx), s)
  {
    if s != [] {
      KeepsMatches(f, predicates, s[0]);
      KeptAreMatches(f, predicates, s[1..]);
    }
  }

  lemma DistinctAreComparable(less: IdOrder, s: seq<Tx>)
    requires StrictTotalOrder(less) && DistinctIds(s)
    ensures Comparable(TxBefore(less), s)
  {
    forall i, j | 0 <= i < j < |s|
      ensures TxBefore(less)(s[i], s[j]) || TxBefore(less)(s[j], s[i])
    {
      assert less(s[i].id, s[j].id) || less(s[j].id, s[i].id);
      assert Precedes(less, PositionOf(s[i]), PositionOf(s[j])) || Precedes(less, PositionOf(s[j]), PositionOf(s[i]));
    }
  }

  /** The page source is ascending and holds exactly the matching records. */
  lemma SortedMatches(less: IdOrder, records: seq<Tx>, f: Filters)
    requires StrictTotalOrder(less) && DistinctIds(records)
    ensures Ascending(TxBefore(less), Sorted(less, records, f))
    ensures forall tx :: tx in Sorted(less, records, f) <==> tx in records && Matches(f, tx)
  {
    var p := tx => Matches(f, tx);
    var active := Select(p, records);
    SelectDistinct(p, records);
    SelectMembers(p, records);
    PrecedesIsStrict(less);
    DistinctAreComparable(less, active);
    SortAscends(TxBefore(less), active);
    SameMembers(Sort(TxBefore(less), active), active);
  }

  /** The order in which the store's map hands out its values does not matter. */
  lemma EnumerationIrrelevant(less: IdOrder, a: seq<Tx>, b: seq<Tx>, f: Filters)
    requires StrictTotalOrder(less) && DistinctIds(a) && DistinctIds(b)
    requires forall tx :: tx in a <==> tx in b
    ensures Sorted(less, a, f) == Sorted(less, b, f)
  {
    SortedMatches(less, a, f);
    SortedMatches(less, b, f);
    PrecedesIsStrict(less);
    AscendingUnique(TxBefore(less), Sorted(less, a, f), Sorted(less, b, f));
  }

  /** On an ascending list, the rows past a cursor are the suffix that starts at the first of them. */
  lemma {:induction false} PastIsSuffix(less: IdOrder, pos: Position, s: seq<Tx>, k: nat)
    requires StrictTotalOrder(less) && Ascending(TxBefore(less), s) && k <= |s|
    requires forall i :: 0 <= i < k ==> !Precedes(less, pos, PositionOf(s[i]))
    requires k < |s| ==> Precedes(less, pos, PositionOf(s[k]))
    ensures Past(less, At(pos), s) == s[k..]
    decreases |s|
  {
    if s != [] {
      var t := s[1..];
      assert Ascending(TxBefore(less), t) by {
        forall i, j | 0 <= i < j < |t| ensures TxBefore(less)(t[i], t[j]) {
          assert TxBefore(less)(s[i + 1], s[j + 1]);
        }
      }
      if k > 0 {
        forall i | 0 <= i < k - 1 ensures !Precedes(less, pos, PositionOf(t[i])) {
          assert t[i] == s[i + 1];
        }
        PastIsSuffix(less, pos, t, k - 1);
      } else {
        if t != [] {
          assert TxBefore(less)(s[0], s[1]);
          PrecedesTransitive(less, pos, PositionOf(s[0]), PositionOf(t[0]));
        }
        PastIsSuffix(less, pos, t, 0);
      }
    }
  }

  /** The findIndex loop: where the rows past the cursor start. */
  method FindStart(less: IdOrder, decoded: Decoded, sorted: seq<Tx>) returns (startIndex: nat)
    requires StrictTotalOrder(less) && Ascending(TxBefore(less), sorted)
    ensures startIndex <= |sorted|
    ensures Past(less, decoded, sorted) == sorted[startIndex..]
  {
    if decoded.NotANumber? {
      return |sorted|;
    }
    startIndex := 0;
    if decoded.At? {
      while startIndex < |sorted| && !Precedes(less, decoded.pos, PositionOf(sorted[startIndex]))
        invariant 0 <= startIndex <= |sorted|
        invariant forall i :: 0 <= i < startIndex ==> !Precedes(less, decoded.pos, PositionOf(sorted[i]))
      {
        startIndex := startIndex + 1;
      }
      PastIsSuffix(less, decoded.pos, sorted, startIndex);
    }
  }

  /** Slicing out one page and building the cursor for the next. */
  method SlicePage(f: Filters, limit: nat, sorted: seq<Tx>, startIndex: nat) returns (page: Page)
    requires startIndex <= |sorted|
    ensures page == Cut(f, limit, sorted[startIndex..])
  {
    var pageLimit := PageLimit(limit);
    var hasMore := startIndex + pageLimit < |sorted|;
    var data := sorted[startIndex..if hasMore then startIndex + pageLimit else |sorted|];
    var nextCursor := NoCursor;
    if hasMore && |data| > 0 {
      nextCursor := EncodeCursor(f, PositionOf(data[|data| - 1]));
    }
    page := Page(data, nextCursor, hasMore);
  }

  // ------------------------------------------------------- what a caller gets in a page

  /** Newest first; of one instant, the greater id first. */
  ghost predicate NewestFirst(less: IdOrder, data: seq<Tx>) {
    forall i, j :: 0 <= i < j < |data| ==>
      || data[i].timestamp > data[j].timestamp
      || (data[i].timestamp == data[j].timestamp && less(data[j].id, data[i].id))
  }

  /** A row the request can still be given: it matches, and is older than the cursor's row or of its
      instant with a smaller id. A cursor whose time is not a number leaves none. */
  predicate Due(less: IdOrder, f: Filters, d: Decoded, tx: Tx) {
    && Matches(f, tx)
    && match d
       case Absent => true
       case NotANumber => false
       case At(pos) => tx.timestamp < pos.time || (tx.timestamp == pos.time && less(tx.id, pos.id))
  }

  /** The page holds due rows only, newest first, and as many of them as there are up to the limit and
      to 100; a due row it leaves out comes after all it holds, and then it says that more follow and
      carries a cursor naming its last row and the request's filters. */
  ghost predicate IsPage(less: IdOrder, records: seq<Tx>, f: Filters, limit: nat, d: Decoded, page: Page) {
    && NewestFirst(less, page.data)
    && (forall tx :: tx in page.data ==> tx in records && Due(less, f, d, tx))
    && (forall tx, held :: tx in records && Due(less, f, d, tx) && tx !in page.data && held in page.data ==>
          tx.timestamp < held.timestamp || (tx.timestamp == held.timestamp && less(tx.id, held.id)))
    && (page.hasMore <==> exists tx :: tx in records && Due(less, f, d, tx) && tx !in page.data)
    && |page.data| <= limit && |page.data| <= 100
    && (page.hasMore ==> |page.data| == limit || |page.data| == 100)
    && (page.nextCursor.NoCursor? <==> !page.hasMore || limit == 0)
    && (page.hasMore && limit > 0 ==>
          && page.data != []
          && var last := page.data[|page.data| - 1];
             && DecodeCursor(page.nextCursor) == At(Position(last.timestamp, last.id))
             && (page.nextCursor.Encoded? <==> f != NO_FILTERS)
             && (page.nextCursor.Encoded? ==> page.nextCursor.filters == f))
  }

  lemma DueRows(less: IdOrder, records: seq<Tx>, f: Filters, d: Decoded)
    requires StrictTotalOrder(less) && DistinctIds(records)
    ensures Ascending(TxBefore(less), Past(less, d, Sorted(less, records, f)))
    ensures forall tx :: tx in Past(less, d, Sorted(less, records, f)) <==> tx in records && Due(less, f, d, tx)
  {
    SortedMatches(less, records, f);
    var sorted := Sorted(less, records, f);
    if d.At? {
      var p := (tx: Tx) => Precedes(less, d.pos, PositionOf(tx));
      SelectMembers(p, sorted);
      SelectAscending(less, p, sorted);
      assert Past(less, d, sorted) == Select(p, sorted);
    }
  }

  lemma {:induction false} SelectAscending(less: IdOrder, p: Tx -> bool, s: seq<Tx>)
    requires Ascending(TxBefore(less), s)
    ensures Ascending(TxBefore(less), Select(p, s))
  {
    if s != [] {
      var t := s[1..];
      assert forall i, j :: 0 <= i < j < |t| ==> t[i] == s[i + 1] && t[j] == s[j + 1];
      SelectAscending(less, p, t);
      SelectMembers(p, t);
      var r := Select(p, t);
      forall j | 0 <= j < |r| ensures TxBefore(less)(s[0], r[j]) {
        assert r[j] in t;
      }
    }
  }

  lemma PrefixIsNewestFirst(less: IdOrder, rest: seq<Tx>, n: nat)
    requires Ascending(TxBefore(less), rest) && n <= |rest|
    ensures NewestFirst(less, rest[..n])
  {
    forall i, j | 0 <= i < j < n ensures Precedes(less, PositionOf(rest[i]), PositionOf(rest[j])) {
      assert TxBefore(less)(rest[i], rest[j]);
    }
  }

  lemma LeftOutIsOlder(less: IdOrder, rest: seq<Tx>, n: nat, tx: Tx, held: Tx)
    requires Ascending(TxBefore(less), rest) && n <= |rest| && tx in rest && tx !in rest[..n] && held in rest[..n]
    ensures tx.timestamp < held.timestamp || (tx.timestamp == held.timestamp && less(tx.id, held.id))
  {
    assert rest == rest[..n] + rest[n..];
    var i :| 0 <= i < |rest| - n && rest[n..][i] == tx;
    var j :| 0 <= j < n && rest[..n][j] == held;
    assert TxBefore(less)(rest[j], rest[n + i]);
  }

  lemma CutIs(f: Filters, limit: nat, rest: seq<Tx>)
    requires forall i, j :: 0 <= i < j < |rest| ==> rest[i] != rest[j]
    ensures var page := Cut(f, limit, rest);
            var n := |page.data|;
            && n <= |rest| && n <= limit && n <= 100 && page.data == rest[..n]
            && (page.hasMore <==> n < |rest|) && (page.hasMore ==> n == limit || n == 100)
            && (page.hasMore ==> rest[n] in rest && rest[n] !in page.data)
            && (page.nextCursor.NoCursor? <==> !page.hasMore || limit == 0)
            && (page.hasMore && limit > 0 ==> n > 0 && page.nextCursor == EncodeCursor(f, PositionOf(rest[n - 1])))
  {
  }

  lemma CutIsPage(less: IdOrder, records: seq<Tx>, f: Filters, limit: nat, d: Decoded, rest: seq<Tx>)
    requires Ascending(TxBefore(less), rest)
    requires forall tx :: tx in rest <==> tx in records && Due(less, f, d, tx)
    requires forall i, j :: 0 <= i < j < |rest| ==> rest[i] != rest[j]
    ensures IsPage(less, records, f, limit, d, Cut(f, limit, rest))
  {
    var page := Cut(f, limit, rest);
    var n := |page.data|;
    CutIs(f, limit, rest);
    PrefixIsNewestFirst(less, rest, n);
    forall tx, held | tx in records && Due(less, f, d, tx) && tx !in page.data && held in page.data
      ensures tx.timestamp < held.timestamp || (tx.timestamp == held.timestamp && less(tx.id, held.id))
    {
      LeftOutIsOlder(less, rest, n, tx, held);
    }
    if page.hasMore && limit > 0 {
      CursorRoundTrip(f, PositionOf(rest[n - 1]));
    }
  }

  /** Every page of the specification is such a page, for every request and cursor. */
  lemma PageMeans(less: IdOrder, records: seq<Tx>, f: Filters, limit: nat, cursor: Cursor)
    requires StrictTotalOrder(less) && DistinctIds(records)
    ensures IsPage(less, records, f, limit, DecodeCursor(cursor), PageSpec(less, records, f, limit, cursor))
  {
    var d := DecodeCursor(cursor);
    var rest := Past(less, d, Sorted(less, records, f));
    DueRows(less, records, f, d);
    forall i, j | 0 <= i < j < |rest| ensures rest[i] != rest[j] {
      assert TxBefore(less)(rest[i], rest[j]);
      PrecedesIsStrict(less);
    }
    CutIsPage(less, records, f, limit, d, rest);
  }

  /** One call of the listing on the values of the store. */
  method GetCursorPaginated(less: IdOrder, records: seq<Tx>, f: Filters, limit: nat, cursor: Cursor)
    returns (page: Page)
    requires StrictTotalOrder(less) && DistinctIds(records)
    ensures page == PageSpec(less, records, f, limit, cursor)
    ensures IsPage(less, records, f, limit, DecodeCursor(cursor), page)
  {
    PageMeans(less, records, f, limit, cursor);
    var predicates := BuildPredicates(f);
    KeptAreMatches(f, predicates, records);
    SortedMatches(less, records, f);
    var sorted := Sort(TxBefore(less), Select(Kept(predicates, f.anyMode), records));
    var startIndex := FindStart(less, DecodeCursor(cursor), sorted);
    page := SlicePage(f, limit, sorted, startIndex);
  }
}
