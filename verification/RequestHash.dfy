/**
 * The text generateRequestHash digests: JSON.stringify with the body's own sorted keys as property
 * list. The list applies at every level, so a nested member is printed only if the body itself has a
 * member of that name.
 */
module RequestHash {
  import opened Text
  import opened Ordering
  import opened CanonicalJson
  import opened JsonText

  /** Object.keys; the keys of an array are its indices. */
  function OwnKeys(v: Js): seq<string> {
    match v
    case Obj(es) => seq(|es|, i requires 0 <= i < |es| => es[i].key)
    case Arr(items) => seq(|items|, i requires 0 <= i < |items| => Decimal(i))
    case _ => []
  }

  function KeySet(v: Js): set<string> { set k | k in OwnKeys(v) }

  /** Where the member with this key stands, or the length. */
  function IndexOf(es: seq<Entry>, key: string): (i: nat)
    ensures i <= |es| && (i < |es| ==> es[i].key == key)
    ensures i == |es| ==> forall e :: e in es ==> e.key != key
  {
    if es == [] then 0
    else
      assert es == [es[0]] + es[1..];
      if es[0].key == key then 0 else IndexOf(es[1..], key) + 1
  }

  /** What a property list prints of a value: in every object, the listed members in list order. */
  function Listed(list: seq<string>, v: Js): Js
    decreases v, 1, 0
  {
    match v
    case Undef => Null
    case Arr(items) => Arr(ListedItems(list, items))
    case Obj(es) => Obj(ListedMembers(list, list, es))
    case _ => v
  }

  function ListedItems(list: seq<string>, items: seq<Js>): (r: seq<Js>)
    ensures |r| == |items| && forall i :: 0 <= i < |items| ==> r[i] == Listed(list, items[i])
    decreases items, 0, 0
  {
    if items == [] then [] else [Listed(list, items[0])] + ListedItems(list, items[1..])
  }

  function ListedMembers(list: seq<string>, left: seq<string>, es: seq<Entry>): seq<Entry>
    decreases es, 0, |left|
  {
    if left == [] then []
    else
      var i := IndexOf(es, left[0]);
      (if i < |es| && Kept(false, es[i]) then [Entry(left[0], Listed(list, es[i].value))] else [])
      + ListedMembers(list, left[1..], es)
  }

  function HashText(less: KeyOrder, v: Js): string { Print(Listed(Sort(less, OwnKeys(v)), v)) }

  /** The value without the members, at any level, whose keys are not in the set. */
  function Prune(keys: set<string>, v: Js): Js
    decreases v, 1
  {
    match v
    case Arr(items) => Arr(PruneItems(keys, items))
    case Obj(es) => Obj(PruneMembers(keys, es))
    case _ => v
  }

  function PruneItems(keys: set<string>, items: seq<Js>): (r: seq<Js>)
    ensures |r| == |items| && forall i :: 0 <= i < |items| ==> r[i] == Prune(keys, items[i])
    decreases items, 0
  {
    if items == [] then [] else [Prune(keys, items[0])] + PruneItems(keys, items[1..])
  }

  function PruneMembers(keys: set<string>, es: seq<Entry>): seq<Entry>
    decreases es, 0
  {
    if es == [] then []
    else (if es[0].key in keys then [Entry(es[0].key, Prune(keys, es[0].value))] else []) + PruneMembers(keys, es[1..])
  }

  // ----------------------------------------------------------------- pruned members

  lemma {:induction false} PruneMembersFacts(keys: set<string>, es: seq<Entry>)
    requires DistinctKeys(es)
    ensures forall e :: e in es && e.key in keys ==> Entry(e.key, Prune(keys, e.value)) in PruneMembers(keys, es)
    ensures forall p :: p in PruneMembers(keys, es) ==>
            p.key in keys && exists e :: e in es && p == Entry(e.key, Prune(keys, e.value))
    ensures DistinctKeys(PruneMembers(keys, es))
  {
    if es != [] {
      PruneMembersFacts(keys, es[1..]);
      var rest := PruneMembers(keys, es[1..]);
      forall e | e in es && e.key in keys ensures Entry(e.key, Prune(keys, e.value)) in PruneMembers(keys, es) {
        assert e == es[0] || e in es[1..];
      }
      forall p | p in PruneMembers(keys, es)
        ensures p.key in keys && exists e :: e in es && p == Entry(e.key, Prune(keys, e.value))
      {
        if p in rest {
          var e :| e in es[1..] && p == Entry(e.key, Prune(keys, e.value));
          assert e in es;
        } else {
          assert p == Entry(es[0].key, Prune(keys, es[0].value)) && es[0] in es;
        }
      }
      forall p | p in rest ensures p.key != es[0].key {
        var e :| e in es[1..] && p == Entry(e.key, Prune(keys, e.value));
        var i :| 0 <= i < |es| - 1 && es[1..][i] == e;
        assert es[i + 1] == e;
      }
    }
  }

  lemma PrunedMemberFrom(keys: set<string>, es: seq<Entry>, p: Entry) returns (i: nat)
    requires DistinctKeys(es) && p in PruneMembers(keys, es)
    ensures p.key in keys && i < |es| && p == Entry(es[i].key, Prune(keys, es[i].value))
  {
    PruneMembersFacts(keys, es);
    var e :| e in es && p == Entry(e.key, Prune(keys, e.value));
    i :| 0 <= i < |es| && es[i] == e;
  }

  lemma {:induction false} PruneIsWellFormed(keys: set<string>, v: Js)
    requires WellFormed(v)
    ensures WellFormed(Prune(keys, v))
    decreases v
  {
    match v
    case Arr(items) =>
      forall i | 0 <= i < |items| ensures WellFormed(Prune(keys, items[i])) {
        PruneIsWellFormed(keys, items[i]);
      }
    case Obj(es) =>
      PruneMembersFacts(keys, es);
      var ps := PruneMembers(keys, es);
      forall j | 0 <= j < |ps| ensures WellFormed(ps[j].value) {
        var i := PrunedMemberFrom(keys, es, ps[j]);
        PruneIsWellFormed(keys, es[i].value);
      }
    case _ =>
  }

  // ------------------------------------------------- the list prints the sorted pruned value

  lemma {:induction false} ListedMembersFacts(less: KeyOrder, list: seq<string>, left: seq<string>, es: seq<Entry>)
    requires Ascending(less, left)
    ensures forall m :: m in ListedMembers(list, left, es) ==>
              m.key in left && var i := IndexOf(es, m.key);
              i < |es| && Kept(false, es[i]) && m.value == Listed(list, es[i].value)
    ensures forall k :: k in left && IndexOf(es, k) < |es| && Kept(false, es[IndexOf(es, k)]) ==>
              Entry(k, Listed(list, es[IndexOf(es, k)].value)) in ListedMembers(list, left, es)
    ensures Ascending(ByKey(less), ListedMembers(list, left, es))
    decreases |left|
  {
    if left != [] {
      ListedMembersFacts(less, list, left[1..], es);
      var rest := ListedMembers(list, left[1..], es);
      forall j | 0 <= j < |rest| ensures less(left[0], rest[j].key) {
        assert rest[j] in rest;
        var n :| 0 <= n < |left| - 1 && left[1..][n] == rest[j].key;
        assert left[n + 1] == rest[j].key;
      }
    }
  }

  lemma KeyHasOneIndex(es: seq<Entry>, i: nat)
    requires DistinctKeys(es) && i < |es|
    ensures IndexOf(es, es[i].key) == i
  {
    var j := IndexOf(es, es[i].key);
    assert es[i] in es;
    assert j < |es| && es[j].key == es[i].key;
  }

  ghost predicate ListedAgrees(less: KeyOrder, list: seq<string>, keys: set<string>, v: Js) {
    Listed(list, v) == Canon(LISTED, less, Prune(keys, v))
  }

  lemma {:induction false} ListedIsCanon(less: KeyOrder, list: seq<string>, keys: set<string>, v: Js)
    requires StrictTotalOrder(less) && Ascending(less, list) && WellFormed(v)
    requires forall k :: k in keys <==> k in list
    ensures ListedAgrees(less, list, keys, v)
    decreases v
  {
    match v
    case Arr(items) =>
      forall i | 0 <= i < |items| ensures ListedAgrees(less, list, keys, items[i]) {
        ListedIsCanon(less, list, keys, items[i]);
      }
      assert ListedItems(list, items) == CanonItems(LISTED, less, PruneItems(keys, items));
    case Obj(es) =>
      forall i | 0 <= i < |es| ensures ListedAgrees(less, list, keys, es[i].value) {
        ListedIsCanon(less, list, keys, es[i].value);
      }
      ObjectIsCanon(less, list, keys, es);
    case _ =>
  }

  lemma ObjectIsCanon(less: KeyOrder, list: seq<string>, keys: set<string>, es: seq<Entry>)
    requires StrictTotalOrder(less) && Ascending(less, list) && DistinctKeys(es)
    requires forall k :: k in keys <==> k in list
    requires forall i :: 0 <= i < |es| ==> ListedAgrees(less, list, keys, es[i].value)
    ensures ListedAgrees(less, list, keys, Obj(es))
  {
    var ps, ls := PruneMembers(keys, es), ListedMembers(list, list, es);
    var cs := CanonEntries(LISTED, less, ps);
    PruneMembersFacts(keys, es);
    CanonEntriesFacts(LISTED, less, ps);
    ListedMembersFacts(less, list, list, es);
    forall c ensures c in ls <==> c in cs {
      if c in ls { ListedToCanon(less, list, keys, es, c); }
      if c in cs { CanonToListed(less, list, keys, es, c); }
    }
    AscendingIsSorted(less, ls, cs);
  }

  lemma AscendingIsSorted(less: KeyOrder, ls: seq<Entry>, cs: seq<Entry>)
    requires StrictTotalOrder(less) && DistinctKeys(cs) && Ascending(ByKey(less), ls)
    requires forall c :: c in ls <==> c in cs
    ensures ls == Sort(ByKey(less), cs)
  {
    KeysAreComparable(less, cs);
    SortAscends(ByKey(less), cs);
    SameMembers(Sort(ByKey(less), cs), cs);
    AscendingUnique(ByKey(less), ls, Sort(ByKey(less), cs));
  }

  lemma ListedToCanon(less: KeyOrder, list: seq<string>, keys: set<string>, es: seq<Entry>, c: Entry)
    requires Ascending(less, list) && DistinctKeys(es) && forall k :: k in keys <==> k in list
    requires forall i :: 0 <= i < |es| ==> ListedAgrees(less, list, keys, es[i].value)
    requires c in ListedMembers(list, list, es)
    ensures c in CanonEntries(LISTED, less, PruneMembers(keys, es))
  {
    var ps := PruneMembers(keys, es);
    ListedMembersFacts(less, list, list, es);
    PruneMembersFacts(keys, es);
    CanonEntriesFacts(LISTED, less, ps);
    var i := IndexOf(es, c.key);
    assert es[i] in es;
    var p := Entry(c.key, Prune(keys, es[i].value));
    assert p in ps && Kept(false, p);
    assert ListedAgrees(less, list, keys, es[i].value);
    assert CanonEntry(LISTED, less, p) == c;
  }

  lemma CanonToListed(less: KeyOrder, list: seq<string>, keys: set<string>, es: seq<Entry>, c: Entry)
    requires Ascending(less, list) && DistinctKeys(es) && forall k :: k in keys <==> k in list
    requires forall i :: 0 <= i < |es| ==> ListedAgrees(less, list, keys, es[i].value)
    requires c in CanonEntries(LISTED, less, PruneMembers(keys, es))
    ensures c in ListedMembers(list, list, es)
  {
    var ps := PruneMembers(keys, es);
    ListedMembersFacts(less, list, list, es);
    PruneMembersFacts(keys, es);
    CanonEntriesFacts(LISTED, less, ps);
    var p :| p in ps && Kept(false, p) && c == CanonEntry(LISTED, less, p);
    var i := PrunedMemberFrom(keys, es, p);
    KeyHasOneIndex(es, i);
    assert ListedAgrees(less, list, keys, es[i].value);
    assert Kept(false, es[i]);
  }

  // ------------------------------------------------------------------- when hashes agree

  lemma {:induction false} DecimalsDiffer(i: nat, j: nat)
    requires i != j
    ensures Decimal(i) != Decimal(j)
  {
    DigitsValueOfDecimal(i);
    DigitsValueOfDecimal(j);
  }

  lemma OwnKeysAreDistinct(v: Js)
    requires WellFormed(v)
    ensures forall i, j :: 0 <= i < j < |OwnKeys(v)| ==> OwnKeys(v)[i] != OwnKeys(v)[j]
  {
    if v.Arr? {
      forall i, j | 0 <= i < j < |OwnKeys(v)| ensures OwnKeys(v)[i] != OwnKeys(v)[j] { DecimalsDiffer(i, j); }
    }
  }

  lemma SortedKeys(less: KeyOrder, v: Js)
    requires StrictTotalOrder(less) && WellFormed(v)
    ensures Ascending(less, Sort(less, OwnKeys(v)))
    ensures forall k :: k in KeySet(v) <==> k in Sort(less, OwnKeys(v))
  {
    OwnKeysAreDistinct(v);
    var keys := OwnKeys(v);
    forall i, j | 0 <= i < j < |keys| ensures less(keys[i], keys[j]) || less(keys[j], keys[i]) { }
    SortAscends(less, keys);
    SameMembers(Sort(less, keys), keys);
  }

  lemma HashTextIsCanon(less: KeyOrder, v: Js)
    requires StrictTotalOrder(less) && WellFormed(v)
    ensures HashText(less, v) == Print(Canon(LISTED, less, Prune(KeySet(v), v)))
    ensures WellFormed(Prune(KeySet(v), v)) && NoUndef(Canon(LISTED, less, Prune(KeySet(v), v)))
  {
    SortedKeys(less, v);
    ListedIsCanon(less, Sort(less, OwnKeys(v)), KeySet(v), v);
    PruneIsWellFormed(KeySet(v), v);
    CanonHasNoUndef(LISTED, less, Prune(KeySet(v), v));
  }

  /** Two bodies have one hash text exactly when they are one value, key order aside, after each has
      lost the nested members that its own top level does not name. */
  lemma SameHashIff(less: KeyOrder, a: Js, b: Js)
    requires StrictTotalOrder(less) && WellFormed(a) && WellFormed(b)
    ensures HashText(less, a) == HashText(less, b)
            <==> Meaning(false, Prune(KeySet(a), a)) == Meaning(false, Prune(KeySet(b), b))
  {
    HashTextIsCanon(less, a);
    HashTextIsCanon(less, b);
    var x, y := Prune(KeySet(a), a), Prune(KeySet(b), b);
    CanonicalForm(LISTED, less, x, y);
    if HashText(less, a) == HashText(less, b) {
      var s, t := Canon(LISTED, less, x), Canon(LISTED, less, y);
      assert Print(s) + "" == Print(t) + "";
      PrintReadsBack(s, t, "", "");
    }
  }

  /** Values without objects inside. */
  predicate Scalar(v: Js)
    decreases v
  {
    !v.Obj? && (v.Arr? ==> forall i :: 0 <= i < |v.items| ==> Scalar(v.items[i]))
  }

  lemma {:induction false} PruneKeepsScalar(keys: set<string>, v: Js)
    requires Scalar(v)
    ensures Prune(keys, v) == v
    decreases v
  {
    if v.Arr? {
      forall i | 0 <= i < |v.items| ensures Prune(keys, v.items[i]) == v.items[i] {
        PruneKeepsScalar(keys, v.items[i]);
      }
      assert PruneItems(keys, v.items) == v.items;
    }
  }

  predicate Flat(es: seq<Entry>) { forall e :: e in es ==> Scalar(e.value) }

  lemma {:induction false} PruneKeepsFlat(keys: set<string>, es: seq<Entry>)
    requires Flat(es) && forall e :: e in es ==> e.key in keys
    ensures PruneMembers(keys, es) == es
  {
    if es != [] {
      assert es[0] in es;
      assert forall e :: e in es[1..] ==> e in es;
      PruneKeepsScalar(keys, es[0].value);
      PruneKeepsFlat(keys, es[1..]);
    }
  }

  lemma OwnMembersStay(es: seq<Entry>)
    requires Flat(es)
    ensures Prune(KeySet(Obj(es)), Obj(es)) == Obj(es)
  {
    forall e | e in es ensures e.key in KeySet(Obj(es)) {
      var i :| 0 <= i < |es| && es[i] == e;
      assert OwnKeys(Obj(es))[i] == e.key;
    }
    PruneKeepsFlat(KeySet(Obj(es)), es);
  }

  /** For bodies without nested objects the hash is exact: one text for one value. */
  lemma FlatBodiesAreToldApart(less: KeyOrder, es: seq<Entry>, fs: seq<Entry>)
    requires StrictTotalOrder(less) && WellFormed(Obj(es)) && WellFormed(Obj(fs)) && Flat(es) && Flat(fs)
    ensures HashText(less, Obj(es)) == HashText(less, Obj(fs)) <==> Meaning(false, Obj(es)) == Meaning(false, Obj(fs))
  {
    OwnMembersStay(es);
    OwnMembersStay(fs);
    SameHashIff(less, Obj(es), Obj(fs));
  }

  lemma {:induction false} PruneAll(keys: set<string>, es: seq<Entry>)
    requires forall e :: e in es ==> e.key !in keys
    ensures PruneMembers(keys, es) == []
  {
    if es != [] {
      assert es[0] in es;
      assert forall e :: e in es[1..] ==> e in es;
      PruneAll(keys, es[1..]);
    }
  }

  lemma PruneSingle(key: string, es: seq<Entry>)
    requires PruneMembers({key}, es) == []
    ensures Prune({key}, Obj([Entry(key, Obj(es))])) == Obj([Entry(key, Obj([]))])
  {
    var members := [Entry(key, Obj(es))];
    assert members[1..] == [] && Prune({key}, Obj(es)) == Obj([]);
    assert PruneMembers({key}, members) == [Entry(key, Obj([]))] + PruneMembers({key}, []);
  }

  /** Nested members are invisible: whatever a nested object holds under keys the body itself does not
      have, the hash is that of the empty object. */
  lemma NestedMembersAreInvisible(less: KeyOrder, key: string, es: seq<Entry>, fs: seq<Entry>)
    requires StrictTotalOrder(less) && WellFormed(Obj(es)) && WellFormed(Obj(fs))
    requires (forall e :: e in es ==> e.key != key) && (forall f :: f in fs ==> f.key != key)
    ensures HashText(less, Obj([Entry(key, Obj(es))])) == HashText(less, Obj([Entry(key, Obj(fs))]))
  {
    var a, b := Obj([Entry(key, Obj(es))]), Obj([Entry(key, Obj(fs))]);
    assert OwnKeys(a) == [key] && OwnKeys(b) == [key];
    PruneAll({key}, es);
    PruneAll({key}, fs);
    assert KeySet(a) == {key} && KeySet(b) == {key};
    PruneSingle(key, es);
    PruneSingle(key, fs);
    SameHashIff(less, a, b);
  }
}
