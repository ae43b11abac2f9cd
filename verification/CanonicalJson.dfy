/**
 * Canonical JSON: key-sorted values, and the text JSON.stringify gives them (RFC 8259).
 *
 * Canon models the recursive key sorts: the one inside normaliseBody (localeCompare order,
 * undefined members dropped), sortObjectKeys (code-unit order, undefined members kept), and the one a
 * sorted property list gives (no object is rebuilt, so integer-like keys are not moved to the front).
 */
module CanonicalJson {
  import opened Ordering
  import opened Text

  predicate NumeralChar(c: char) { IsDigit(c) || c in "+-.eE" }

  /** A number as Number::toString prints it; equal numbers have one text. */
  type Numeral = s: string | s != [] && (IsDigit(s[0]) || s[0] == '-') && (forall c :: c in s ==> NumeralChar(c))
    witness "0"

  /** A JavaScript value as it sits in memory: objects hold their entries in enumeration order. */
  datatype Js =
    | Undef
    | Null
    | Bool(b: bool)
    | Num(n: Numeral)
    | Str(s: string)
    | Arr(items: seq<Js>)
    | Obj(entries: seq<Entry>)

  datatype Entry = Entry(key: string, value: Js)

  /** The value without the order of its members. */
  datatype Val =
    | VUndef
    | VNull
    | VBool(b: bool)
    | VNum(n: Numeral)
    | VStr(s: string)
    | VArr(items: seq<Val>)
    | VObj(members: map<string, Val>)

  ghost predicate DistinctKeys(es: seq<Entry>) {
    forall i, j :: 0 <= i < j < |es| ==> es[i].key != es[j].key
  }

  /** Every object, at every level, has distinct keys. */
  ghost predicate WellFormed(v: Js)
    decreases v
  {
    match v
    case Arr(items) => forall i :: 0 <= i < |items| ==> WellFormed(items[i])
    case Obj(es) => DistinctKeys(es) && forall i :: 0 <= i < |es| ==> WellFormed(es[i].value)
    case _ => true
  }

  /** What a value means as JSON. With `keep`, undefined is a value of its own; without it, an
      undefined member is absent and an undefined element is null. */
  function Meaning(keep: bool, v: Js): Val
    decreases v, 1
  {
    match v
    case Undef => if keep then VUndef else VNull
    case Null => VNull
    case Bool(b) => VBool(b)
    case Num(n) => VNum(n)
    case Str(s) => VStr(s)
    case Arr(items) => VArr(MeaningItems(keep, items))
    case Obj(es) => VObj(MeaningMembers(keep, es))
  }

  function MeaningItems(keep: bool, items: seq<Js>): (r: seq<Val>)
    ensures |r| == |items|
    ensures forall i :: 0 <= i < |items| ==> r[i] == Meaning(keep, items[i])
    decreases items, 0
  {
    if items == [] then [] else [Meaning(keep, items[0])] + MeaningItems(keep, items[1..])
  }

  predicate Kept(keep: bool, e: Entry) { keep || !e.value.Undef? }

  function MeaningMembers(keep: bool, es: seq<Entry>): (m: map<string, Val>)
    ensures forall k :: k in m ==> exists i :: 0 <= i < |es| && es[i].key == k && Kept(keep, es[i])
    ensures DistinctKeys(es) ==>
              forall i :: 0 <= i < |es| && Kept(keep, es[i]) ==>
                es[i].key in m && m[es[i].key] == Meaning(keep, es[i].value)
    decreases es, 0
  {
    if es == [] then map[]
    else
      var rest := MeaningMembers(keep, es[1..]);
      if Kept(keep, es[0]) then rest[es[0].key := Meaning(keep, es[0].value)] else rest
  }

  // ------------------------------------------------------------ canonical form

  /** An array-index key: engines enumerate those first, in numeric order. */
  predicate IsIndexKey(k: string) {
    k != [] && AllDigits(k) && (k == "0" || k[0] != '0') && DigitsValue(k) < 0xFFFF_FFFF
  }

  function ByIndex(): (Entry, Entry) -> bool {
    (a: Entry, b: Entry) => IsIndexKey(a.key) && IsIndexKey(b.key) && DigitsValue(a.key) < DigitsValue(b.key)
  }

  function Pick(index: bool, es: seq<Entry>): (r: seq<Entry>)
    ensures forall e :: e in r <==> e in es && IsIndexKey(e.key) == index
    ensures DistinctKeys(es) ==> DistinctKeys(r)
  {
    if es == [] then []
    else
      assert es == [es[0]] + es[1..];
      var rest := Pick(index, es[1..]);
      if IsIndexKey(es[0].key) == index then [es[0]] + rest else rest
  }

  /** The order in which an object built by inserting `es` enumerates its entries. */
  function OwnOrder(es: seq<Entry>): seq<Entry> {
    Sort(ByIndex(), Pick(true, es)) + Pick(false, es)
  }

  /** `less(a, b)` stands for a < b, or for a.localeCompare(b) < 0. */
  type KeyOrder = (string, string) -> bool

  /** `keep`: undefined members stay. `own`: the sorted members are put into an object and read back. */
  datatype Mode = Mode(keep: bool, own: bool)

  const REPLACER := Mode(false, true)
  const REBUILT := Mode(true, true)
  const LISTED := Mode(false, false)

  function Enumerated(mode: Mode, es: seq<Entry>): seq<Entry> { if mode.own then OwnOrder(es) else es }

  function ByKey(less: KeyOrder): (Entry, Entry) -> bool {
    (a: Entry, b: Entry) => less(a.key, b.key)
  }

  function Canon(mode: Mode, less: KeyOrder, v: Js): Js
    decreases v, 1
  {
    match v
    case Undef => if mode.keep then Undef else Null
    case Arr(items) => Arr(CanonItems(mode, less, items))
    case Obj(es) => Obj(Enumerated(mode, Sort(ByKey(less), CanonEntries(mode, less, es))))
    case _ => v
  }

  function CanonItems(mode: Mode, less: KeyOrder, items: seq<Js>): (r: seq<Js>)
    ensures |r| == |items|
    ensures forall i :: 0 <= i < |items| ==> r[i] == Canon(mode, less, items[i])
    decreases items, 0
  {
    if items == [] then [] else [Canon(mode, less, items[0])] + CanonItems(mode, less, items[1..])
  }

  function CanonEntries(mode: Mode, less: KeyOrder, es: seq<Entry>): seq<Entry>
    decreases es, 0
  {
    if es == [] then []
    else
      (if Kept(mode.keep, es[0]) then [CanonEntry(mode, less, es[0])] else []) + CanonEntries(mode, less, es[1..])
  }

  function CanonEntry(mode: Mode, less: KeyOrder, e: Entry): Entry
    decreases e, 2
  {
    Entry(e.key, Canon(mode, less, e.value))
  }

  lemma {:induction false} CanonEntriesFacts(mode: Mode, less: KeyOrder, es: seq<Entry>)
    ensures forall e :: e in es && Kept(mode.keep, e) ==> CanonEntry(mode, less, e) in CanonEntries(mode, less, es)
    ensures forall c :: c in CanonEntries(mode, less, es) ==>
              exists e :: e in es && Kept(mode.keep, e) && c == CanonEntry(mode, less, e)
    ensures DistinctKeys(es) ==> DistinctKeys(CanonEntries(mode, less, es))
  {
    if es != [] {
      CanonEntriesFacts(mode, less, es[1..]);
      var rest := CanonEntries(mode, less, es[1..]);
      forall e | e in es && Kept(mode.keep, e) ensures CanonEntry(mode, less, e) in CanonEntries(mode, less, es) {
        assert e == es[0] || e in es[1..];
      }
      forall c | c in CanonEntries(mode, less, es)
        ensures exists e :: e in es && Kept(mode.keep, e) && c == CanonEntry(mode, less, e)
      {
        if c in rest {
          var e :| e in es[1..] && Kept(mode.keep, e) && c == CanonEntry(mode, less, e);
          assert e in es;
        } else {
          assert c == CanonEntry(mode, less, es[0]);
        }
      }
      forall c | DistinctKeys(es) && c in rest ensures c.key != es[0].key {
        var e :| e in es[1..] && Kept(mode.keep, e) && c == CanonEntry(mode, less, e);
        var i :| 0 <= i < |es| - 1 && es[1..][i] == e;
        assert es[i + 1] == e;
      }
    }
  }

  lemma SameEntriesKeepDistinctKeys(a: seq<Entry>, b: seq<Entry>)
    requires DistinctKeys(a) && multiset(a) == multiset(b)
    ensures DistinctKeys(b)
  {
    SameMembers(a, b);
    forall i, j | 0 <= i < j < |b| ensures b[i].key != b[j].key {
      assert b[i] in a && b[j] in a;
      assert b[i] != b[j] by { NoRepeats(a, b, i, j); }
    }
  }

  lemma NoRepeats(a: seq<Entry>, b: seq<Entry>, i: nat, j: nat)
    requires DistinctKeys(a) && multiset(a) == multiset(b) && i < j < |b|
    ensures b[i] != b[j]
  {
    CountAtMostOne(a, b[i]);
    assert b == b[..i] + [b[i]] + b[i + 1..j] + [b[j]] + b[j + 1..];
    assert b[i] == b[j] ==> multiset(b)[b[i]] >= 2;
  }

  lemma {:induction false} CountAtMostOne(a: seq<Entry>, e: Entry)
    requires DistinctKeys(a)
    ensures multiset(a)[e] <= 1
  {
    if a != [] {
      assert a == [a[0]] + a[1..];
      CountAtMostOne(a[1..], e);
      if a[0] == e {
        assert e !in a[1..];
        assert multiset(a[1..])[e] == 0;
      }
    }
  }

  /** Enumerating a freshly built object loses and repeats nothing. */
  lemma OwnOrderPermutes(es: seq<Entry>)
    ensures multiset(OwnOrder(es)) == multiset(es)
  {
    PickSplits(es);
  }

  lemma {:induction false} PickSplits(es: seq<Entry>)
    ensures multiset(Pick(true, es)) + multiset(Pick(false, es)) == multiset(es)
  {
    if es != [] {
      assert es == [es[0]] + es[1..];
      PickSplits(es[1..]);
    }
  }

  // ------------------------------------------------ canonical form: the theorems

  /** What a member list says about one key. */
  lemma {:induction false} MeaningOfMembers(keep: bool, es: seq<Entry>, k: string)
    requires DistinctKeys(es)
    ensures k in MeaningMembers(keep, es) <==> exists e :: e in es && e.key == k && Kept(keep, e)
    ensures forall e :: e in es && e.key == k && Kept(keep, e) ==>
              k in MeaningMembers(keep, es) && MeaningMembers(keep, es)[k] == Meaning(keep, e.value)
  {
    forall e | e in es && e.key == k && Kept(keep, e)
      ensures k in MeaningMembers(keep, es) && MeaningMembers(keep, es)[k] == Meaning(keep, e.value)
    {
      var i :| 0 <= i < |es| && es[i] == e;
    }
    if k in MeaningMembers(keep, es) {
      var i :| 0 <= i < |es| && es[i].key == k && Kept(keep, es[i]);
      assert es[i] in es;
    }
  }

  /** `cs` holds the canonical form of exactly the kept entries of `es`. */
  ghost predicate CanonOf(mode: Mode, less: KeyOrder, es: seq<Entry>, cs: seq<Entry>) {
    && DistinctKeys(cs)
    && (forall e :: e in es && Kept(mode.keep, e) ==> CanonEntry(mode, less, e) in cs)
    && (forall c :: c in cs ==> exists e :: e in es && Kept(mode.keep, e) && c == CanonEntry(mode, less, e))
  }

  lemma CanonMembers(mode: Mode, less: KeyOrder, es: seq<Entry>) returns (cs: seq<Entry>)
    requires DistinctKeys(es)
    ensures Canon(mode, less, Obj(es)) == Obj(cs) && CanonOf(mode, less, es, cs)
  {
    CanonEntriesFacts(mode, less, es);
    var raw := CanonEntries(mode, less, es);
    var sorted := Sort(ByKey(less), raw);
    cs := Enumerated(mode, sorted);
    OwnOrderPermutes(sorted);
    SameMembers(cs, raw);
    SameEntriesKeepDistinctKeys(raw, cs);
  }

  ghost predicate KeepsMeaning(mode: Mode, less: KeyOrder, v: Js) {
    Meaning(mode.keep, Canon(mode, less, v)) == Meaning(mode.keep, v) && WellFormed(Canon(mode, less, v))
  }

  /** Sorting keys changes no value. */
  lemma {:induction false} CanonKeepsMeaning(mode: Mode, less: KeyOrder, v: Js)
    requires WellFormed(v)
    ensures KeepsMeaning(mode, less, v)
    decreases v
  {
    match v
    case Arr(items) =>
      forall i | 0 <= i < |items| ensures KeepsMeaning(mode, less, items[i]) {
        CanonKeepsMeaning(mode, less, items[i]);
      }
      assert MeaningItems(mode.keep, CanonItems(mode, less, items)) == MeaningItems(mode.keep, items);
    case Obj(es) =>
      forall e | e in es ensures KeepsMeaning(mode, less, e.value) {
        var i :| 0 <= i < |es| && es[i] == e;
        CanonKeepsMeaning(mode, less, es[i].value);
      }
      ObjectKeepsMeaning(mode, less, es);
    case _ =>
  }

  lemma ObjectKeepsMeaning(mode: Mode, less: KeyOrder, es: seq<Entry>)
    requires DistinctKeys(es)
    requires forall e :: e in es ==> KeepsMeaning(mode, less, e.value)
    ensures KeepsMeaning(mode, less, Obj(es))
  {
    var cs := CanonMembers(mode, less, es);
    forall i | 0 <= i < |cs| ensures WellFormed(cs[i].value) {
      var c := cs[i];
      assert c in cs;
      var e :| e in es && Kept(mode.keep, e) && c == CanonEntry(mode, less, e);
    }
    forall k ensures SameAt(MeaningMembers(mode.keep, cs), MeaningMembers(mode.keep, es), k) {
      MemberKeepsMeaning(mode, less, es, cs, k);
    }
    SameMap(MeaningMembers(mode.keep, cs), MeaningMembers(mode.keep, es));
  }

  ghost predicate SameAt(m: map<string, Val>, n: map<string, Val>, k: string) {
    (k in m <==> k in n) && (k in m ==> m[k] == n[k])
  }

  lemma SameMap(m: map<string, Val>, n: map<string, Val>)
    requires forall k :: SameAt(m, n, k)
    ensures m == n
  {
    forall k ensures k in m <==> k in n { assert SameAt(m, n, k); }
    forall k | k in m ensures m[k] == n[k] { assert SameAt(m, n, k); }
  }

  lemma MemberKeepsMeaning(mode: Mode, less: KeyOrder, es: seq<Entry>, cs: seq<Entry>, k: string)
    requires DistinctKeys(es) && CanonOf(mode, less, es, cs)
    requires forall e :: e in es ==> KeepsMeaning(mode, less, e.value)
    ensures SameAt(MeaningMembers(mode.keep, cs), MeaningMembers(mode.keep, es), k)
  {
    MeaningOfMembers(mode.keep, cs, k);
    MeaningOfMembers(mode.keep, es, k);
    if e :| e in es && e.key == k && Kept(mode.keep, e) {
      var c := CanonEntry(mode, less, e);
      assert c in cs && c.key == k && Kept(mode.keep, c);
      assert KeepsMeaning(mode, less, e.value);
    } else {
      forall c | c in cs ensures c.key != k {
        var e :| e in es && Kept(mode.keep, e) && c == CanonEntry(mode, less, e);
      }
    }
  }

  lemma {:induction false} SameMeaningSameCanon(mode: Mode, less: KeyOrder, a: Js, b: Js)
    requires StrictTotalOrder(less) && WellFormed(a) && WellFormed(b)
    requires Meaning(mode.keep, a) == Meaning(mode.keep, b)
    ensures Canon(mode, less, a) == Canon(mode, less, b)
    decreases a
  {
    match a
    case Arr(items) =>
      forall i | 0 <= i < |items| ensures Canon(mode, less, items[i]) == Canon(mode, less, b.items[i]) {
        assert MeaningItems(mode.keep, items)[i] == MeaningItems(mode.keep, b.items)[i];
        SameMeaningSameCanon(mode, less, items[i], b.items[i]);
      }
      assert CanonItems(mode, less, items) == CanonItems(mode, less, b.items);
    case Obj(es) =>
      forall e, f | e in es && f in b.entries && Meaning(mode.keep, e.value) == Meaning(mode.keep, f.value)
        ensures Canon(mode, less, e.value) == Canon(mode, less, f.value)
      {
        var i :| 0 <= i < |es| && es[i] == e;
        var j :| 0 <= j < |b.entries| && b.entries[j] == f;
        SameMeaningSameCanon(mode, less, es[i].value, b.entries[j].value);
      }
      SameEntriesSameCanon(mode, less, es, b.entries);
    case _ =>
  }

  ghost predicate SameMeaningsSameCanon(mode: Mode, less: KeyOrder, es: seq<Entry>, fs: seq<Entry>) {
    forall e, f :: e in es && f in fs && Meaning(mode.keep, e.value) == Meaning(mode.keep, f.value) ==>
      Canon(mode, less, e.value) == Canon(mode, less, f.value)
  }

  lemma SameEntriesSameCanon(mode: Mode, less: KeyOrder, es: seq<Entry>, fs: seq<Entry>)
    requires StrictTotalOrder(less) && DistinctKeys(es) && DistinctKeys(fs)
    requires MeaningMembers(mode.keep, es) == MeaningMembers(mode.keep, fs)
    requires SameMeaningsSameCanon(mode, less, es, fs)
    ensures Canon(mode, less, Obj(es)) == Canon(mode, less, Obj(fs))
  {
    var xs, ys := CanonEntries(mode, less, es), CanonEntries(mode, less, fs);
    CanonEntriesDistinct(mode, less, es);
    CanonEntriesDistinct(mode, less, fs);
    SameCanonEntries(mode, less, es, fs);
    SortedByKeyUnique(less, xs, ys);
  }

  lemma SameCanonEntries(mode: Mode, less: KeyOrder, es: seq<Entry>, fs: seq<Entry>)
    requires DistinctKeys(es) && DistinctKeys(fs)
    requires MeaningMembers(mode.keep, es) == MeaningMembers(mode.keep, fs)
    requires SameMeaningsSameCanon(mode, less, es, fs)
    ensures forall c :: c in CanonEntries(mode, less, es) <==> c in CanonEntries(mode, less, fs)
  {
    assert SameMeaningsSameCanon(mode, less, fs, es);
    forall c ensures c in CanonEntries(mode, less, es) <==> c in CanonEntries(mode, less, fs) {
      if c in CanonEntries(mode, less, es) { CanonEntryMoves(mode, less, es, fs, c); }
      if c in CanonEntries(mode, less, fs) { CanonEntryMoves(mode, less, fs, es, c); }
    }
  }

  lemma CanonEntriesDistinct(mode: Mode, less: KeyOrder, es: seq<Entry>)
    requires DistinctKeys(es)
    ensures DistinctKeys(CanonEntries(mode, less, es))
  {
    CanonEntriesFacts(mode, less, es);
  }

  lemma CanonEntryMoves(mode: Mode, less: KeyOrder, es: seq<Entry>, fs: seq<Entry>, c: Entry)
    requires DistinctKeys(es) && DistinctKeys(fs)
    requires MeaningMembers(mode.keep, es) == MeaningMembers(mode.keep, fs)
    requires SameMeaningsSameCanon(mode, less, es, fs)
    requires c in CanonEntries(mode, less, es)
    ensures c in CanonEntries(mode, less, fs)
  {
    CanonEntriesFacts(mode, less, es);
    CanonEntriesFacts(mode, less, fs);
    var e :| e in es && Kept(mode.keep, e) && c == CanonEntry(mode, less, e);
    MeaningOfMembers(mode.keep, es, e.key);
    MeaningOfMembers(mode.keep, fs, e.key);
    var f :| f in fs && f.key == e.key && Kept(mode.keep, f);
    assert CanonEntry(mode, less, f) == c;
  }

  lemma KeysAreComparable(less: KeyOrder, xs: seq<Entry>)
    requires StrictTotalOrder(less) && DistinctKeys(xs)
    ensures StrictOrder(ByKey(less)) && Comparable(ByKey(less), xs)
  {
    var before := ByKey(less);
    forall x ensures !before(x, x) { assert !less(x.key, x.key); }
    forall x, y, z | before(x, y) && before(y, z) ensures before(x, z) {
      assert less(x.key, y.key) && less(y.key, z.key);
    }
    forall i, j | 0 <= i < j < |xs| ensures before(xs[i], xs[j]) || before(xs[j], xs[i]) {
      assert less(xs[i].key, xs[j].key) || less(xs[j].key, xs[i].key);
    }
  }

  lemma SortedByKeyUnique(less: KeyOrder, xs: seq<Entry>, ys: seq<Entry>)
    requires StrictTotalOrder(less) && DistinctKeys(xs) && DistinctKeys(ys)
    requires forall c :: c in xs <==> c in ys
    ensures Sort(ByKey(less), xs) == Sort(ByKey(less), ys)
  {
    KeysAreComparable(less, xs);
    KeysAreComparable(less, ys);
    SortAscends(ByKey(less), xs);
    SortAscends(ByKey(less), ys);
    SameMembers(Sort(ByKey(less), xs), xs);
    SameMembers(Sort(ByKey(less), ys), ys);
    AscendingUnique(ByKey(less), Sort(ByKey(less), xs), Sort(ByKey(less), ys));
  }

  /** The key sort is a canonical form: it sends two values to one exactly when they are the same
      value up to the order of keys, at every level. */
  lemma CanonicalForm(mode: Mode, less: KeyOrder, a: Js, b: Js)
    requires StrictTotalOrder(less) && WellFormed(a) && WellFormed(b)
    ensures Canon(mode, less, a) == Canon(mode, less, b) <==> Meaning(mode.keep, a) == Meaning(mode.keep, b)
  {
    CanonKeepsMeaning(mode, less, a);
    CanonKeepsMeaning(mode, less, b);
    if Meaning(mode.keep, a) == Meaning(mode.keep, b) {
      SameMeaningSameCanon(mode, less, a, b);
    }
  }

  // --------------------------------------------------------------- the order of keys

  /** Members by key; of an object built anew, the integer-like keys come first and by number. */
  ghost predicate KeysInOrder(mode: Mode, less: KeyOrder, es: seq<Entry>) {
    forall i, j :: 0 <= i < j < |es| ==>
      if mode.own && IsIndexKey(es[j].key)
      then IsIndexKey(es[i].key) && DigitsValue(es[i].key) < DigitsValue(es[j].key)
      else (mode.own && IsIndexKey(es[i].key)) || less(es[i].key, es[j].key)
  }

  ghost predicate InOrder(mode: Mode, less: KeyOrder, v: Js)
    decreases v
  {
    match v
    case Arr(items) => forall i :: 0 <= i < |items| ==> InOrder(mode, less, items[i])
    case Obj(es) => KeysInOrder(mode, less, es) && forall i :: 0 <= i < |es| ==> InOrder(mode, less, es[i].value)
    case _ => true
  }

  lemma {:induction false} PickAscends(less: KeyOrder, index: bool, es: seq<Entry>)
    requires Ascending(ByKey(less), es)
    ensures Ascending(ByKey(less), Pick(index, es))
  {
    if es != [] {
      var t := es[1..];
      assert forall i, j :: 0 <= i < j < |t| ==> t[i] == es[i + 1] && t[j] == es[j + 1];
      PickAscends(less, index, t);
      var r := Pick(index, t);
      forall j | 0 <= j < |r| ensures ByKey(less)(es[0], r[j]) {
        assert r[j] in t;
      }
    }
  }

  lemma IndexKeysAreComparable(es: seq<Entry>)
    requires DistinctKeys(es) && forall e :: e in es ==> IsIndexKey(e.key)
    ensures StrictOrder(ByIndex()) && Comparable(ByIndex(), es)
  {
    forall i, j | 0 <= i < j < |es| ensures ByIndex()(es[i], es[j]) || ByIndex()(es[j], es[i]) {
      assert es[i] in es && es[j] in es;
      CanonicalIsDecimal(es[i].key);
      CanonicalIsDecimal(es[j].key);
    }
  }

  lemma OwnOrderIsInOrder(mode: Mode, less: KeyOrder, es: seq<Entry>)
    requires mode.own && DistinctKeys(es) && Ascending(ByKey(less), es)
    ensures KeysInOrder(mode, less, OwnOrder(es))
  {
    var first, second := Sort(ByIndex(), Pick(true, es)), Pick(false, es);
    IndexKeysAreComparable(Pick(true, es));
    SortAscends(ByIndex(), Pick(true, es));
    SameMembers(first, Pick(true, es));
    PickAscends(less, false, es);
    forall i, j | 0 <= i < j < |first| ensures ByIndex()(first[i], first[j]) { }
    forall i, j | 0 <= i < j < |second| ensures ByKey(less)(second[i], second[j]) { }
    forall i | 0 <= i < |first| ensures IsIndexKey(first[i].key) { assert first[i] in first; }
    forall i | 0 <= i < |second| ensures !IsIndexKey(second[i].key) { assert second[i] in second; }
  }

  /** Every object of the result lists its members in that order, at every level. */
  lemma {:induction false} CanonInOrder(mode: Mode, less: KeyOrder, v: Js)
    requires StrictTotalOrder(less) && WellFormed(v)
    ensures InOrder(mode, less, Canon(mode, less, v))
    decreases v
  {
    match v
    case Arr(items) =>
      forall i | 0 <= i < |items| ensures InOrder(mode, less, Canon(mode, less, items[i])) {
        CanonInOrder(mode, less, items[i]);
      }
    case Obj(es) =>
      forall e | e in es ensures InOrder(mode, less, Canon(mode, less, e.value)) {
        var i :| 0 <= i < |es| && es[i] == e;
        CanonInOrder(mode, less, es[i].value);
      }
      ObjectInOrder(mode, less, es);
    case _ =>
  }

  lemma ObjectInOrder(mode: Mode, less: KeyOrder, es: seq<Entry>)
    requires StrictTotalOrder(less) && DistinctKeys(es)
    requires forall e :: e in es ==> InOrder(mode, less, Canon(mode, less, e.value))
    ensures InOrder(mode, less, Canon(mode, less, Obj(es)))
  {
    var raw := CanonEntries(mode, less, es);
    var sorted := Sort(ByKey(less), raw);
    CanonEntriesDistinct(mode, less, es);
    KeysAreComparable(less, raw);
    SortAscends(ByKey(less), raw);
    SameEntriesKeepDistinctKeys(raw, sorted);
    if mode.own {
      OwnOrderIsInOrder(mode, less, sorted);
    } else {
      forall i, j | 0 <= i < j < |sorted| ensures less(sorted[i].key, sorted[j].key) {
        assert ByKey(less)(sorted[i], sorted[j]);
      }
    }
    var cs := CanonMembers(mode, less, es);
    forall i | 0 <= i < |cs| ensures InOrder(mode, less, cs[i].value) {
      assert cs[i] in cs;
      var e :| e in es && Kept(mode.keep, e) && cs[i] == CanonEntry(mode, less, e);
    }
  }

  /** sortObjectKeys: the specification file is a fixed point once sorted, and its bytes depend
      only on the value. */
  function SortObjectKeys(codeUnitLess: KeyOrder, v: Js): Js { Canon(REBUILT, codeUnitLess, v) }

  lemma SortObjectKeysIsStable(less: KeyOrder, a: Js, b: Js)
    requires StrictTotalOrder(less) && WellFormed(a) && WellFormed(b)
    ensures SortObjectKeys(less, SortObjectKeys(less, a)) == SortObjectKeys(less, a)
    ensures SortObjectKeys(less, a) == SortObjectKeys(less, b) <==> Meaning(true, a) == Meaning(true, b)
  {
    CanonKeepsMeaning(REBUILT, less, a);
    CanonicalForm(REBUILT, less, SortObjectKeys(less, a), a);
    CanonicalForm(REBUILT, less, a, b);
  }
}
