/** The compound filters of the transaction listing and the predicate list built from them. */
module TransactionFilters {
  import opened Text
  import opened Transactions

  datatype Filters = Filters(
    from: string, to: string,
    amountMin: Option<real>, amountMax: Option<real>,
    start: Option<int>, end: Option<int>,
    status: string, memoContains: string,
    anyMode: bool)

  const NO_FILTERS := Filters("", "", None, None, None, None, "", "", false)

  /** One entry of the predicate list: the closure is kept as the value it captured. */
  datatype Criterion =
    | Donor(donor: string) | Recipient(recipient: string)
    | AtLeast(min: real) | AtMost(max: real)
    | NotBefore(start: int) | NotAfter(end: int)
    | HasStatus(status: string) | MemoContains(needle: string)
  {
    predicate Holds(tx: Tx) {
      match this
      case Donor(d) => tx.donor == d
      case Recipient(r) => tx.recipient == r
      case AtLeast(min) => tx.amount >= min
      case AtMost(max) => tx.amount <= max
      case NotBefore(t) => tx.timestamp >= t
      case NotAfter(t) => tx.timestamp <= t
      case HasStatus(s) => Lower(tx.status) == s
      case MemoContains(n) => Contains(Lower(tx.memo), n)
    }
  }

  /** Every criterion the request gives is met. */
  predicate MeetsAll(f: Filters, tx: Tx) {
    && (f.from != "" ==> tx.donor == f.from)
    && (f.to != "" ==> tx.recipient == f.to)
    && (f.amountMin.Some? ==> tx.amount >= f.amountMin.value)
    && (f.amountMax.Some? ==> tx.amount <= f.amountMax.value)
    && (f.start.Some? ==> tx.timestamp >= f.start.value)
    && (f.end.Some? ==> tx.timestamp <= f.end.value)
    && (f.status != "" ==> Lower(tx.status) == Lower(f.status))
    && (f.memoContains != "" ==> Contains(Lower(tx.memo), Lower(f.memoContains)))
  }

  /** At least one criterion the request gives is met. */
  predicate MeetsAny(f: Filters, tx: Tx) {
    || (f.from != "" && tx.donor == f.from)
    || (f.to != "" && tx.recipient == f.to)
    || (f.amountMin.Some? && tx.amount >= f.amountMin.value)
    || (f.amountMax.Some? && tx.amount <= f.amountMax.value)
    || (f.start.Some? && tx.timestamp >= f.start.value)
    || (f.end.Some? && tx.timestamp <= f.end.value)
    || (f.status != "" && Lower(tx.status) == Lower(f.status))
    || (f.memoContains != "" && Contains(Lower(tx.memo), Lower(f.memoContains)))
  }

  predicate Matches(f: Filters, tx: Tx) {
    && !tx.deleted
    && (f.(anyMode := false) == NO_FILTERS || if f.anyMode then MeetsAny(f, tx) else MeetsAll(f, tx))
  }

  /** The criteria a request switches on. */
  predicate Wanted(f: Filters, c: Criterion) {
    match c
    case Donor(d) => f.from != "" && d == f.from
    case Recipient(r) => f.to != "" && r == f.to
    case AtLeast(min) => f.amountMin == Some(min)
    case AtMost(max) => f.amountMax == Some(max)
    case NotBefore(t) => f.start == Some(t)
    case NotAfter(t) => f.end == Some(t)
    case HasStatus(s) => f.status != "" && s == Lower(f.status)
    case MemoContains(n) => f.memoContains != "" && n == Lower(f.memoContains)
  }

  method BuildPredicates(f: Filters) returns (predicates: seq<Criterion>)
    ensures forall c :: c in predicates <==> Wanted(f, c)
  {
    predicates := [];
    if f.from != "" { predicates := predicates + [Donor(f.from)]; }
    if f.to != "" { predicates := predicates + [Recipient(f.to)]; }
    if f.amountMin.Some? { predicates := predicates + [AtLeast(f.amountMin.value)]; }
    if f.amountMax.Some? { predicates := predicates + [AtMost(f.amountMax.value)]; }
    if f.start.Some? { predicates := predicates + [NotBefore(f.start.value)]; }
    if f.end.Some? { predicates := predicates + [NotAfter(f.end.value)]; }
    if f.status != "" { predicates := predicates + [HasStatus(Lower(f.status))]; }
    if f.memoContains != "" { predicates := predicates + [MemoContains(Lower(f.memoContains))]; }
  }

  predicate Keeps(predicates: seq<Criterion>, anyMode: bool, t: Tx) {
    && !t.deleted
    && (predicates == []
        || if anyMode then exists c :: c in predicates && c.Holds(t)
           else forall c :: c in predicates ==> c.Holds(t))
  }

  lemma AllCriteria(f: Filters, tx: Tx)
    ensures (forall c :: Wanted(f, c) ==> c.Holds(tx)) <==> MeetsAll(f, tx)
  {
    if forall c :: Wanted(f, c) ==> c.Holds(tx) {
      assert f.from != "" ==> Wanted(f, Donor(f.from));
      assert f.to != "" ==> Wanted(f, Recipient(f.to));
      assert f.amountMin.Some? ==> Wanted(f, AtLeast(f.amountMin.value));
      assert f.amountMax.Some? ==> Wanted(f, AtMost(f.amountMax.value));
      assert f.start.Some? ==> Wanted(f, NotBefore(f.start.value));
      assert f.end.Some? ==> Wanted(f, NotAfter(f.end.value));
      assert f.status != "" ==> Wanted(f, HasStatus(Lower(f.status)));
      assert f.memoContains != "" ==> Wanted(f, MemoContains(Lower(f.memoContains)));
    }
  }

  lemma AnyCriterion(f: Filters, tx: Tx)
    ensures (exists c :: Wanted(f, c) && c.Holds(tx)) <==> MeetsAny(f, tx)
  {
    if MeetsAny(f, tx) {
      var c :=
        if f.from != "" && tx.donor == f.from then Donor(f.from)
        else if f.to != "" && tx.recipient == f.to then Recipient(f.to)
        else if f.amountMin.Some? && tx.amount >= f.amountMin.value then AtLeast(f.amountMin.value)
        else if f.amountMax.Some? && tx.amount <= f.amountMax.value then AtMost(f.amountMax.value)
        else if f.start.Some? && tx.timestamp >= f.start.value then NotBefore(f.start.value)
        else if f.end.Some? && tx.timestamp <= f.end.value then NotAfter(f.end.value)
        else if f.status != "" && Lower(tx.status) == Lower(f.status) then HasStatus(Lower(f.status))
        else MemoContains(Lower(f.memoContains));
      assert Wanted(f, c) && c.Holds(tx);
    }
  }

  lemma NoCriteria(f: Filters)
    ensures (forall c :: !Wanted(f, c)) <==> f.(anyMode := false) == NO_FILTERS
  {
    if f.(anyMode := false) != NO_FILTERS {
      var c :=
        if f.from != "" then Donor(f.from)
        else if f.to != "" then Recipient(f.to)
        else if f.amountMin.Some? then AtLeast(f.amountMin.value)
        else if f.amountMax.Some? then AtMost(f.amountMax.value)
        else if f.start.Some? then NotBefore(f.start.value)
        else if f.end.Some? then NotAfter(f.end.value)
        else if f.status != "" then HasStatus(Lower(f.status))
        else MemoContains(Lower(f.memoContains));
      assert Wanted(f, c);
    }
  }

  /** The list of criteria decides a record as the request's filters say. */
  lemma KeepsMatches(f: Filters, predicates: seq<Criterion>, tx: Tx)
    requires forall c :: c in predicates <==> Wanted(f, c)
    ensures Keeps(predicates, f.anyMode, tx) == Matches(f, tx)
  {
    NoCriteria(f);
    if predicates != [] { assert predicates[0] in predicates; }
    if f.anyMode { AnyCriterion(f, tx); } else { AllCriteria(f, tx); }
  }
}
