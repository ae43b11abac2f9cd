/** What a client collects by following cursors while the store changes between its calls. */
module PageWalk {
  import opened Ordering
  import opened Transactions
  import opened TransactionFilters
  import opened Cursors
  import opened Pagination

  /** Everything returned when call k sees stores[k] and the client stops at the first page
      without a cursor. */
  function Walk(less: IdOrder, stores: seq<seq<Tx>>, f: Filters, limit: nat, cursor: Cursor): seq<Tx> {
    if stores == [] then []
    else
      var page := PageSpec(less, stores[0], f, limit, cursor);
      page.data + if page.nextCursor.NoCursor? then [] else Walk(less, stores[1..], f, limit, page.nextCursor)
  }

  /** The client saw a page without a cursor. */
  predicate Finishes(less: IdOrder, stores: seq<seq<Tx>>, f: Filters, limit: nat, cursor: Cursor) {
    && stores != []
    && var page := PageSpec(less, stores[0], f, limit, cursor);
       page.nextCursor.NoCursor? || Finishes(less, stores[1..], f, limit, page.nextCursor)
  }

  ghost predicate Snapshots(stores: seq<seq<Tx>>) {
    forall i :: 0 <= i < |stores| ==> DistinctIds(stores[i])
  }

  /** Timestamps of a record never change: no update touches them. */
  ghost predicate TimesStable(stores: seq<seq<Tx>>) {
    forall i, j, a, b :: 0 <= i < |stores| && 0 <= j < |stores| && a in stores[i] && b in stores[j] && a.id == b.id
      ==> a.timestamp == b.timestamp
  }

  /** Every call finds a matching record at this position. */
  ghost predicate KeepsMatching(stores: seq<seq<Tx>>, f: Filters, pos: Position) {
    forall i :: 0 <= i < |stores| ==> exists tx :: tx in stores[i] && Matches(f, tx) && PositionOf(tx) == pos
  }

  // ------------------------------------- the walk over already sorted sources

  /** The walk with cursors as positions, over the sorted matches of each snapshot. */
  function Steps(less: IdOrder, sources: seq<seq<Tx>>, n: nat, d: Decoded): seq<Tx>
    requires n >= 1
  {
    if sources == [] then []
    else
      var rest := Past(less, d, sources[0]);
      if |rest| <= n then rest
      else rest[..n] + Steps(less, sources[1..], n, At(PositionOf(rest[n - 1])))
  }

  predicate StepsFinish(less: IdOrder, sources: seq<seq<Tx>>, n: nat, d: Decoded)
    requires n >= 1
  {
    && sources != []
    && var rest := Past(less, d, sources[0]);
       |rest| <= n || StepsFinish(less, sources[1..], n, At(PositionOf(rest[n - 1])))
  }

  ghost predicate AscendingAll(less: IdOrder, sources: seq<seq<Tx>>) {
    forall i :: 0 <= i < |sources| ==> Ascending(TxBefore(less), sources[i])
  }

  predicate Beyond(less: IdOrder, d: Decoded, pos: Position) {
    match d
    case Absent => true
    case NotANumber => false
    case At(c) => Precedes(less, c, pos)
  }

  ghost function FirstPast(less: IdOrder, pos: Position, s: seq<Tx>): (k: nat)
    ensures k <= |s|
    ensures forall i :: 0 <= i < k ==> !Precedes(less, pos, PositionOf(s[i]))
    ensures k < |s| ==> Precedes(less, pos, PositionOf(s[k]))
  {
    if s == [] || Precedes(less, pos, PositionOf(s[0])) then 0 else FirstPast(less, pos, s[1..]) + 1
  }

  /** The rows past a cursor are a suffix of the ascending list, and exactly its rows beyond it. */
  lemma PastFacts(less: IdOrder, d: Decoded, s: seq<Tx>) returns (k: nat)
    requires StrictTotalOrder(less) && Ascending(TxBefore(less), s)
    ensures k <= |s| && Past(less, d, s) == s[k..]
    ensures Ascending(TxBefore(less), Past(less, d, s))
    ensures forall tx :: tx in Past(less, d, s) <==> tx in s && Beyond(less, d, PositionOf(tx))
  {
    match d
    case Absent => k := 0;
    case NotANumber => k := |s|;
    case At(pos) =>
      k := FirstPast(less, pos, s);
      PastIsSuffix(less, pos, s, k);
      SelectMembers(tx => Precedes(less, pos, PositionOf(tx)), s);
  }

  lemma AfterLast(less: IdOrder, data: seq<Tx>, later: seq<Tx>)
    requires StrictTotalOrder(less)
    requires data != [] && Ascending(TxBefore(less), data) && Ascending(TxBefore(less), later)
    requires forall tx :: tx in later ==> Precedes(less, PositionOf(data[|data| - 1]), PositionOf(tx))
    ensures Ascending(TxBefore(less), data + later)
  {
    var last := data[|data| - 1];
    forall i, j | 0 <= i < |data| && 0 <= j < |later| ensures TxBefore(less)(data[i], later[j]) {
      assert later[j] in later;
      if i < |data| - 1 {
        assert TxBefore(less)(data[i], last);
        PrecedesTransitive(less, PositionOf(data[i]), PositionOf(last), PositionOf(later[j]));
      }
    }
  }

  lemma BeyondTransitive(less: IdOrder, d: Decoded, a: Position, b: Position)
    requires StrictTotalOrder(less) && Beyond(less, d, a) && Precedes(less, a, b)
    ensures Beyond(less, d, b)
  {
    if d.At? {
      PrecedesTransitive(less, d.pos, a, b);
    }
  }

  /** Every row left over by a cut lies past the last row kept. */
  lemma LeftOver(less: IdOrder, rest: seq<Tx>, n: nat, tx: Tx)
    requires Ascending(TxBefore(less), rest) && 1 <= n < |rest| && tx in rest
    ensures tx in rest[..n] || Precedes(less, PositionOf(rest[n - 1]), PositionOf(tx))
  {
    var i :| 0 <= i < |rest| && rest[i] == tx;
    if i < n {
      assert rest[..n][i] == tx;
    } else {
      assert TxBefore(less)(rest[n - 1], rest[i]);
    }
  }

  ghost predicate FromSources(sources: seq<seq<Tx>>, tx: Tx) {
    exists k :: 0 <= k < |sources| && tx in sources[k]
  }

  lemma FromTail(sources: seq<seq<Tx>>, tx: Tx)
    requires sources != [] && FromSources(sources[1..], tx)
    ensures FromSources(sources, tx)
  {
    var i :| 0 <= i < |sources| - 1 && tx in sources[1..][i];
    assert tx in sources[i + 1];
  }

  lemma {:induction false} StepsFromSources(less: IdOrder, sources: seq<seq<Tx>>, n: nat, d: Decoded, tx: Tx)
    requires StrictTotalOrder(less) && AscendingAll(less, sources) && n >= 1
    requires tx in Steps(less, sources, n, d)
    ensures Beyond(less, d, PositionOf(tx)) && FromSources(sources, tx)
    decreases |sources|
  {
    var k := PastFacts(less, d, sources[0]);
    var rest := Past(less, d, sources[0]);
    if tx !in rest {
      var last := rest[n - 1];
      StepsFromSources(less, sources[1..], n, At(PositionOf(last)), tx);
      assert last in rest;
      BeyondTransitive(less, d, PositionOf(last), PositionOf(tx));
      FromTail(sources, tx);
    }
  }

  /** One page and the ascending rest of the walk make an ascending list. */
  lemma PageJoins(less: IdOrder, rest: seq<Tx>, n: nat, later: seq<Tx>)
    requires StrictTotalOrder(less) && 1 <= n < |rest|
    requires Ascending(TxBefore(less), rest) && Ascending(TxBefore(less), later)
    requires forall tx :: tx in later ==> Precedes(less, PositionOf(rest[n - 1]), PositionOf(tx))
    ensures Ascending(TxBefore(less), rest[..n] + later)
  {
    assert rest[..n][n - 1] == rest[n - 1];
    AfterLast(less, rest[..n], later);
  }

  lemma {:induction false} StepsAscend(less: IdOrder, sources: seq<seq<Tx>>, n: nat, d: Decoded)
    requires StrictTotalOrder(less) && AscendingAll(less, sources) && n >= 1
    ensures Ascending(TxBefore(less), Steps(less, sources, n, d))
    decreases |sources|
  {
    if sources != [] {
      var k := PastFacts(less, d, sources[0]);
      var rest := Past(less, d, sources[0]);
      if |rest| > n {
        var next := At(PositionOf(rest[n - 1]));
        var later := Steps(less, sources[1..], n, next);
        StepsAscend(less, sources[1..], n, next);
        forall tx | tx in later ensures Precedes(less, PositionOf(rest[n - 1]), PositionOf(tx)) {
          StepsFromSources(less, sources[1..], n, next, tx);
        }
        PageJoins(less, rest, n, later);
      }
    }
  }

  ghost predicate OccupiedIn(s: seq<Tx>, pos: Position) {
    exists tx :: tx in s && PositionOf(tx) == pos
  }

  ghost predicate OccupiedInAll(sources: seq<seq<Tx>>, pos: Position) {
    forall i :: 0 <= i < |sources| ==> OccupiedIn(sources[i], pos)
  }

  lemma OccupiedByPart(a: seq<Tx>, b: seq<Tx>, pos: Position)
    requires OccupiedIn(a, pos) || OccupiedIn(b, pos)
    ensures OccupiedIn(a + b, pos)
  {
    var tx :| tx in a + b && PositionOf(tx) == pos;
  }

  /** A position a cut does not keep lies past the last row kept. */
  lemma LeftOverPosition(less: IdOrder, s: seq<Tx>, n: nat, d: Decoded, pos: Position)
    requires StrictTotalOrder(less) && Ascending(TxBefore(less), s) && n >= 1
    requires OccupiedIn(s, pos) && Beyond(less, d, pos)
    ensures var rest := Past(less, d, s);
            if |rest| <= n then OccupiedIn(rest, pos)
            else OccupiedIn(rest[..n], pos) || Beyond(less, At(PositionOf(rest[n - 1])), pos)
  {
    var k := PastFacts(less, d, s);
    var rest := Past(less, d, s);
    var tx :| tx in s && PositionOf(tx) == pos;
    assert tx in rest;
    if |rest| > n {
      LeftOver(less, rest, n, tx);
    }
  }

  lemma {:induction false} StepsReach(less: IdOrder, sources: seq<seq<Tx>>, n: nat, d: Decoded, pos: Position)
    requires StrictTotalOrder(less) && AscendingAll(less, sources) && n >= 1
    requires OccupiedInAll(sources, pos)
    requires Beyond(less, d, pos) && StepsFinish(less, sources, n, d)
    ensures OccupiedIn(Steps(less, sources, n, d), pos)
    decreases |sources|
  {
    LeftOverPosition(less, sources[0], n, d, pos);
    var rest := Past(less, d, sources[0]);
    if |rest| > n {
      var next := At(PositionOf(rest[n - 1]));
      if !OccupiedIn(rest[..n], pos) {
        assert OccupiedInAll(sources[1..], pos) && AscendingAll(less, sources[1..]);
        StepsReach(less, sources[1..], n, next, pos);
      }
      OccupiedByPart(rest[..n], Steps(less, sources[1..], n, next), pos);
    }
  }

  /** Nothing up to position k of an ascending list lies past its row k; the rest does. */
  lemma PastRow(less: IdOrder, s: seq<Tx>, k: nat)
    requires StrictTotalOrder(less) && Ascending(TxBefore(less), s) && k < |s|
    ensures Past(less, At(PositionOf(s[k])), s) == s[k + 1..]
  {
    var pos := PositionOf(s[k]);
    forall i | 0 <= i < k + 1 ensures !Precedes(less, pos, PositionOf(s[i])) {
      if i < k { assert TxBefore(less)(s[i], s[k]); }
    }
    if k + 1 < |s| { assert TxBefore(less)(s[k], s[k + 1]); }
    PastIsSuffix(less, pos, s, k + 1);
  }

  lemma PastSuffixRow(less: IdOrder, source: seq<Tx>, k: nat, n: nat)
    requires StrictTotalOrder(less) && Ascending(TxBefore(less), source) && 1 <= n && k + n < |source|
    ensures Past(less, At(PositionOf(source[k..][n - 1])), source) == source[k..][n..]
  {
    DropTwice(source, k, n);
    PastRow(less, source, k + n - 1);
  }

  /** The rows past the n-th row past a cursor are the rest of the rows past it. */
  lemma PastPage(less: IdOrder, source: seq<Tx>, n: nat, d: Decoded)
    requires StrictTotalOrder(less) && Ascending(TxBefore(less), source) && 1 <= n < |Past(less, d, source)|
    ensures var rest := Past(less, d, source); Past(less, At(PositionOf(rest[n - 1])), source) == rest[n..]
  {
    var k := PastFacts(less, d, source);
    PastSuffixRow(less, source, k, n);
  }

  lemma DropTwice<T>(s: seq<T>, k: nat, n: nat)
    requires 1 <= n && k + n <= |s|
    ensures s[k..][n - 1] == s[k + n - 1] && s[k..][n..] == s[k + n..]
  {
  }

  lemma OneCallFewer(rows: nat, n: nat, calls: nat)
    requires n < rows <= calls * n
    ensures calls > 1 && rows - n <= (calls - 1) * n
  {
    assert (calls - 1) * n == calls * n - n;
    assert calls <= 1 ==> calls * n <= n;
  }

  /** The same snapshot, seen by every call. */
  function Repeated(source: seq<Tx>, calls: nat): seq<seq<Tx>> { seq(calls, _ => source) }

  lemma {:induction false} FixedSteps(less: IdOrder, source: seq<Tx>, n: nat, d: Decoded, calls: nat)
    requires StrictTotalOrder(less) && Ascending(TxBefore(less), source) && n >= 1 && calls >= 1
    requires |Past(less, d, source)| <= calls * n
    ensures Steps(less, Repeated(source, calls), n, d) == Past(less, d, source)
    ensures StepsFinish(less, Repeated(source, calls), n, d)
    decreases calls
  {
    var rest := Past(less, d, source);
    assert Repeated(source, calls)[0] == source;
    if |rest| > n {
      var next := At(PositionOf(rest[n - 1]));
      PastPage(less, source, n, d);
      OneCallFewer(|rest|, n, calls);
      FixedSteps(less, source, n, next, calls - 1);
      assert Repeated(source, calls)[1..] == Repeated(source, calls - 1);
      assert rest == rest[..n] + rest[n..];
    }
  }

  // -------------------------------------------------------- back to the cursors

  function Sources(less: IdOrder, stores: seq<seq<Tx>>, f: Filters): (sources: seq<seq<Tx>>)
    ensures |sources| == |stores|
    ensures forall k :: 0 <= k < |stores| ==> sources[k] == Sorted(less, stores[k], f)
  {
    if stores == [] then [] else [Sorted(less, stores[0], f)] + Sources(less, stores[1..], f)
  }

  /** The page holds the first n of the remaining rows, and its cursor says where they end. */
  predicate Describes(page: Page, n: nat, rest: seq<Tx>)
    requires n >= 1
  {
    && (page.nextCursor.NoCursor? <==> |rest| <= n)
    && page.data == (if |rest| <= n then rest else rest[..n])
    && (|rest| > n ==> DecodeCursor(page.nextCursor) == At(PositionOf(rest[n - 1])))
  }

  lemma CutDescribes(f: Filters, limit: nat, rest: seq<Tx>)
    requires limit >= 1
    ensures Describes(Cut(f, limit, rest), PageLimit(limit), rest)
  {
    if |rest| > PageLimit(limit) {
      CursorRoundTrip(f, PositionOf(rest[PageLimit(limit) - 1]));
    }
  }

  /** One page of the walk is one step over positions. */
  lemma PageIsStep(less: IdOrder, sources: seq<seq<Tx>>, n: nat, d: Decoded, page: Page)
    requires n >= 1 && sources != [] && Describes(page, n, Past(less, d, sources[0]))
    ensures var next := page.nextCursor;
            && Steps(less, sources, n, d)
               == page.data + (if next.NoCursor? then [] else Steps(less, sources[1..], n, DecodeCursor(next)))
            && (StepsFinish(less, sources, n, d)
                <==> next.NoCursor? || StepsFinish(less, sources[1..], n, DecodeCursor(next)))
  {
    assert page.data + [] == page.data;
  }

  lemma SourcesHead(less: IdOrder, stores: seq<seq<Tx>>, f: Filters)
    requires stores != []
    ensures Sources(less, stores, f)[0] == Sorted(less, stores[0], f)
    ensures Sources(less, stores, f)[1..] == Sources(less, stores[1..], f)
  {
  }

  lemma PageDescribes(less: IdOrder, records: seq<Tx>, f: Filters, limit: nat, cursor: Cursor, rest: seq<Tx>)
    requires limit >= 1 && rest == Past(less, DecodeCursor(cursor), Sorted(less, records, f))
    ensures Describes(PageSpec(less, records, f, limit, cursor), PageLimit(limit), rest)
  {
    CutDescribes(f, limit, rest);
  }

  lemma WalkHead(less: IdOrder, stores: seq<seq<Tx>>, f: Filters, limit: nat, cursor: Cursor, page: Page)
    requires stores != [] && page == PageSpec(less, stores[0], f, limit, cursor)
    ensures Walk(less, stores, f, limit, cursor)
            == page.data + if page.nextCursor.NoCursor? then [] else Walk(less, stores[1..], f, limit, page.nextCursor)
    ensures Finishes(less, stores, f, limit, cursor)
            <==> page.nextCursor.NoCursor? || Finishes(less, stores[1..], f, limit, page.nextCursor)
  {
  }

  /** Handing cursor texts back and forth loses nothing: the walk is the one over positions. */
  lemma {:induction false} WalkIsSteps(less: IdOrder, stores: seq<seq<Tx>>, f: Filters, limit: nat, cursor: Cursor)
    requires limit >= 1
    ensures Walk(less, stores, f, limit, cursor)
            == Steps(less, Sources(less, stores, f), PageLimit(limit), DecodeCursor(cursor))
    ensures Finishes(less, stores, f, limit, cursor)
            <==> StepsFinish(less, Sources(less, stores, f), PageLimit(limit), DecodeCursor(cursor))
    decreases |stores|
  {
    if stores != [] {
      var page := PageSpec(less, stores[0], f, limit, cursor);
      SourcesHead(less, stores, f);
      PageDescribes(less, stores[0], f, limit, cursor,
                    Past(less, DecodeCursor(cursor), Sources(less, stores, f)[0]));
      WalkHead(less, stores, f, limit, cursor, page);
      PageIsStep(less, Sources(less, stores, f), PageLimit(limit), DecodeCursor(cursor), page);
      if !page.nextCursor.NoCursor? {
        WalkIsSteps(less, stores[1..], f, limit, page.nextCursor);
      }
    }
  }

  lemma SourceFacts(less: IdOrder, stores: seq<seq<Tx>>, f: Filters)
    requires StrictTotalOrder(less) && Snapshots(stores)
    ensures AscendingAll(less, Sources(less, stores, f))
    ensures forall i, tx :: 0 <= i < |stores| ==>
              (tx in Sources(less, stores, f)[i] <==> tx in stores[i] && Matches(f, tx))
  {
    forall i | 0 <= i < |stores|
      ensures Ascending(TxBefore(less), Sources(less, stores, f)[i])
      ensures forall tx :: tx in Sources(less, stores, f)[i] <==> tx in stores[i] && Matches(f, tx)
    {
      SortedMatches(less, stores[i], f);
    }
  }

  /** Whatever happens to the store between calls, a walk never goes back. */
  lemma WalkAscends(less: IdOrder, stores: seq<seq<Tx>>, f: Filters, limit: nat)
    requires StrictTotalOrder(less) && Snapshots(stores) && limit >= 1
    ensures Ascending(TxBefore(less), Walk(less, stores, f, limit, NoCursor))
  {
    SourceFacts(less, stores, f);
    WalkIsSteps(less, stores, f, limit, NoCursor);
    StepsAscend(less, Sources(less, stores, f), PageLimit(limit), Absent);
  }

  /** Every row a walk returns was a live matching record of some call's store. */
  lemma WalkReturnsMatches(less: IdOrder, stores: seq<seq<Tx>>, f: Filters, limit: nat, tx: Tx)
    requires StrictTotalOrder(less) && Snapshots(stores) && limit >= 1
    requires tx in Walk(less, stores, f, limit, NoCursor)
    ensures exists k :: 0 <= k < |stores| && tx in stores[k] && Matches(f, tx)
  {
    WalkIsSteps(less, stores, f, limit, NoCursor);
    StepsReturnMatches(less, stores, f, PageLimit(limit), tx);
  }

  lemma StepsReturnMatches(less: IdOrder, stores: seq<seq<Tx>>, f: Filters, n: nat, tx: Tx)
    requires StrictTotalOrder(less) && Snapshots(stores) && n >= 1
    ensures tx in Steps(less, Sources(less, stores, f), n, Absent)
            ==> exists k :: 0 <= k < |stores| && tx in stores[k] && Matches(f, tx)
  {
    var sources := Sources(less, stores, f);
    if tx in Steps(less, sources, n, Absent) {
      SourceFacts(less, stores, f);
      StepsFromSources(less, sources, n, Absent, tx);
      var k :| 0 <= k < |sources| && tx in sources[k];
      SortedMatches(less, stores[k], f);
      assert tx in stores[k];
    }
  }

  /** No record is returned twice, however the store grows, shrinks or is updated between calls. */
  lemma NoRecordTwice(less: IdOrder, stores: seq<seq<Tx>>, f: Filters, limit: nat)
    requires StrictTotalOrder(less) && Snapshots(stores) && TimesStable(stores) && limit >= 1
    ensures DistinctIds(Walk(less, stores, f, limit, NoCursor))
  {
    WalkAscends(less, stores, f, limit);
    var w := Walk(less, stores, f, limit, NoCursor);
    forall i, j | 0 <= i < j < |w| ensures w[i].id != w[j].id {
      assert TxBefore(less)(w[i], w[j]);
      assert w[i] in w && w[j] in w;
      WalkReturnsMatches(less, stores, f, limit, w[i]);
      WalkReturnsMatches(less, stores, f, limit, w[j]);
    }
  }

  /** A finished walk has returned every record that was there at the start and kept matching. */
  lemma NothingMissed(less: IdOrder, stores: seq<seq<Tx>>, f: Filters, limit: nat, pos: Position)
    requires StrictTotalOrder(less) && Snapshots(stores) && limit >= 1
    requires KeepsMatching(stores, f, pos)
    ensures Finishes(less, stores, f, limit, NoCursor) ==> OccupiedIn(Walk(less, stores, f, limit, NoCursor), pos)
  {
    SourceFacts(less, stores, f);
    WalkIsSteps(less, stores, f, limit, NoCursor);
    var sources := Sources(less, stores, f);
    forall i | 0 <= i < |sources| ensures OccupiedIn(sources[i], pos) {
      var tx :| tx in stores[i] && Matches(f, tx) && PositionOf(tx) == pos;
      assert tx in sources[i];
    }
    if StepsFinish(less, sources, PageLimit(limit), Absent) {
      StepsReach(less, sources, PageLimit(limit), Absent, pos);
    }
  }

  /** On a store that stays put, enough calls to cover the matches return the whole sorted,
      filtered list, page after page. */
  lemma PagesConcatenate(less: IdOrder, records: seq<Tx>, f: Filters, limit: nat, calls: nat)
    requires StrictTotalOrder(less) && DistinctIds(records) && limit >= 1 && calls >= 1
    requires |Sorted(less, records, f)| <= calls * PageLimit(limit)
    ensures var stores := seq(calls, _ => records);
            && Finishes(less, stores, f, limit, NoCursor)
            && Walk(less, stores, f, limit, NoCursor) == Sorted(less, records, f)
  {
    var stores := seq(calls, _ => records);
    SortedMatches(less, records, f);
    FixedSteps(less, Sorted(less, records, f), PageLimit(limit), Absent, calls);
    assert Sources(less, stores, f) == Repeated(Sorted(less, records, f), calls);
    WalkIsSteps(less, stores, f, limit, NoCursor);
  }
}
