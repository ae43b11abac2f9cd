/** What projecting onto field paths keeps, adds and leaves alone. */
module FieldProjection {
  import opened FieldFilter

  /** The input: a closed heap and the object to project. `at` maps each object made by the
      projection to its path from the result's root. */
  datatype Input = Input(heap: Heap, src: nat)
  {
    function At(p: Path): Value { Get(heap, Ref(src), p) }
  }

  ghost predicate Closed(h: Heap) {
    forall r, k :: r in h && k in h[r].fields ==> Known(h, h[r].fields[k])
  }

  predicate Made(at: map<nat, Path>, v: Value) { v.Ref? && v.r in at }

  /** A property of a made object is the made object of its path, or the input's value there. */
  ghost predicate EdgeOk(i: Input, at: map<nat, Path>, p: Path, v: Value) {
    if Made(at, v) then at[v.r] == p else v != Undefined && v == i.At(p)
  }

  ghost predicate Shape(i: Input, m: Memory, at: map<nat, Path>) {
    && Sound(m) && Closed(i.heap) && i.src in i.heap
    && m.heap.Keys == i.heap.Keys + at.Keys && i.heap.Keys !! at.Keys
    && (forall r :: r in i.heap ==> m.heap[r] == i.heap[r])
    && (forall f :: f in at ==> i.At(at[f]).Ref?)
    && (forall f, k :: f in at && k in m.heap[f].fields ==> EdgeOk(i, at, at[f] + [k], m.heap[f].fields[k]))
  }

  /** Every property of a made object lies on a requested path, and holds an input value only where
      such a path ends. */
  ghost predicate Asked(m: Memory, at: map<nat, Path>, paths: set<Path>)
    requires at.Keys <= m.heap.Keys
  {
    forall f, k :: f in at && k in m.heap[f].fields ==> EdgeAsked(at, at[f] + [k], m.heap[f].fields[k], paths)
  }

  ghost predicate EdgeAsked(at: map<nat, Path>, q: Path, v: Value, paths: set<Path>) {
    if Made(at, v) then exists p :: p in paths && q <= p else q in paths
  }

  /** Following `segs` from a made object ends in an input value. */
  predicate Lands(m: Memory, at: map<nat, Path>, f: nat, segs: Path)
    requires at.Keys <= m.heap.Keys && f in at
    decreases |segs|
  {
    && segs != []
    && segs[0] in m.heap[f].fields
    && var v := m.heap[f].fields[segs[0]];
       Made(at, v) ==> Lands(m, at, v.r, segs[1..])
  }

  /** Properties of made objects stay, or turn from made objects into input values. */
  ghost predicate Grows(m: Memory, at: map<nat, Path>, m': Memory, at': map<nat, Path>)
    requires at.Keys <= m.heap.Keys && at'.Keys <= m'.heap.Keys
  {
    && m.heap.Keys <= m'.heap.Keys
    && (forall f :: f in at ==> f in at' && at'[f] == at[f])
    && (forall f :: f in at' ==> f in at || f !in m.heap)
    && (forall f, k :: f in at && k in m.heap[f].fields ==>
          && k in m'.heap[f].fields
          && (m'.heap[f].fields[k] == m.heap[f].fields[k] || !Made(at', m'.heap[f].fields[k])))
  }

  // -------------------------------------------------------------- reading the input

  lemma {:induction false} GetAppend(h: Heap, v: Value, a: Path, b: Path)
    ensures Get(h, v, a + b) == Get(h, Get(h, v, a), b)
    decreases |a|
  {
    if a == [] {
      assert a + b == b;
    } else if v.Ref? {
      assert (a + b)[1..] == a[1..] + b;
      GetAppend(h, Prop(h, v, a[0]), a[1..], b);
    }
  }

  lemma {:induction false} ClosedGet(h: Heap, v: Value, p: Path)
    requires Closed(h) && Known(h, v)
    ensures Known(h, Get(h, v, p))
    decreases |p|
  {
    if p != [] && v.Ref? {
      ClosedGet(h, Prop(h, v, p[0]), p[1..]);
    }
  }

  /** A path with a value runs through objects all the way to its last step. */
  lemma StepOfDefined(i: Input, prefix: Path, segs: Path)
    requires segs != [] && i.At(prefix + segs) != Undefined
    ensures |segs| > 1 ==> i.At(prefix + [segs[0]]).Ref?
    ensures Get(i.heap, i.At(prefix), segs) == i.At(prefix + segs)
  {
    GetAppend(i.heap, Ref(i.src), prefix, segs);
    if |segs| > 1 {
      var first, rest := prefix + [segs[0]], segs[1..];
      assert prefix + segs == first + rest;
      GetAppend(i.heap, Ref(i.src), first, rest);
      assert rest != [] && Get(i.heap, i.At(first), rest) != Undefined;
    }
  }

  // ------------------------------------------------------------------ writing once

  /** Writing through a shared input object stores what is already there. */
  lemma {:induction false} AliasWrite(m: Memory, h: Heap, cur: nat, segs: Path, v: Value)
    requires Sound(m) && Known(m.heap, v) && Closed(h)
    requires (forall r :: r in h ==> r in m.heap && m.heap[r] == h[r])
    requires cur in h && segs != [] && v != Undefined && Get(h, Ref(cur), segs) == v
    ensures Set(m, cur, segs, v) == m
    decreases |segs|
  {
    var child := Prop(h, Ref(cur), segs[0]);
    if |segs| == 1 {
      assert Get(h, Ref(cur), segs) == Get(h, child, []);
      assert m.heap[cur].fields[segs[0] := v] == m.heap[cur].fields;
      assert Write(m.heap, cur, segs[0], v) == m.heap;
    } else {
      assert child.Ref?;
      AliasWrite(m, h, child.r, segs[1..], v);
    }
  }

  /** The last write at a made object. */
  lemma WriteLeaf(i: Input, m: Memory, at: map<nat, Path>, cur: nat, seg: string, v: Value,
                  paths: set<Path>) returns (m': Memory)
    requires Shape(i, m, at) && Asked(m, at, paths) && cur in at
    requires v != Undefined && v == i.At(at[cur] + [seg])
    ensures Known(m.heap, v) && m' == m.(heap := Write(m.heap, cur, seg, v)) == Set(m, cur, [seg], v)
    ensures Shape(i, m', at) && Asked(m', at, paths + {at[cur] + [seg]}) && Grows(m, at, m', at)
    ensures Lands(m', at, cur, [seg])
  {
    ClosedGet(i.heap, Ref(i.src), at[cur] + [seg]);
    m' := m.(heap := Write(m.heap, cur, seg, v));
    assert !Made(at, v);
    AskedMore(m, at, paths, at[cur] + [seg]);
  }

  lemma AskedMore(m: Memory, at: map<nat, Path>, paths: set<Path>, p: Path)
    requires at.Keys <= m.heap.Keys && Asked(m, at, paths)
    ensures Asked(m, at, paths + {p})
  {
    forall f, k | f in at && k in m.heap[f].fields
      ensures EdgeAsked(at, at[f] + [k], m.heap[f].fields[k], paths + {p})
    {
      var q, v := at[f] + [k], m.heap[f].fields[k];
      assert EdgeAsked(at, q, v, paths);
      if Made(at, v) {
        var p' :| p' in paths && q <= p';
        assert p' in paths + {p};
      }
    }
  }

  /** Creating an intermediate object where the path has none yet. */
  lemma GrowBranch(i: Input, m: Memory, at: map<nat, Path>, cur: nat, seg: string, p: Path, paths: set<Path>)
    returns (m': Memory, at': map<nat, Path>)
    requires Shape(i, m, at) && Asked(m, at, paths) && cur in at
    requires at[cur] + [seg] <= p && i.At(at[cur] + [seg]).Ref? && seg !in m.heap[cur].fields
    ensures m' == Memory(Write(m.heap[m.next := EMPTY_OBJECT], cur, seg, Ref(m.next)), m.next + 1)
    ensures at' == at[m.next := at[cur] + [seg]]
    ensures Shape(i, m', at') && Asked(m', at', paths + {p}) && Grows(m, at, m', at')
  {
    m' := Memory(Write(m.heap[m.next := EMPTY_OBJECT], cur, seg, Ref(m.next)), m.next + 1);
    at' := at[m.next := at[cur] + [seg]];
    assert m.next !in m.heap;
    AskedMore(m, at, paths, p);
    forall f, k | f in at' && k in m'.heap[f].fields
      ensures EdgeOk(i, at', at'[f] + [k], m'.heap[f].fields[k])
      ensures EdgeAsked(at', at'[f] + [k], m'.heap[f].fields[k], paths + {p})
    {
      if f == cur && k == seg {
        assert Made(at', m'.heap[f].fields[k]);
        assert p in paths + {p};
      } else {
        assert k in m.heap[f].fields && EdgeOk(i, at, at[f] + [k], m.heap[f].fields[k]);
        assert Known(m.heap, m.heap[f].fields[k]);
      }
    }
  }

  lemma GrowsTransitive(m0: Memory, at0: map<nat, Path>, m1: Memory, at1: map<nat, Path>, m2: Memory,
                        at2: map<nat, Path>)
    requires at0.Keys <= m0.heap.Keys && at1.Keys <= m1.heap.Keys && at2.Keys <= m2.heap.Keys
    requires Sound(m1) && Grows(m0, at0, m1, at1) && Grows(m1, at1, m2, at2)
    ensures Grows(m0, at0, m2, at2)
  {
  }

  lemma {:induction false} LandsStays(m: Memory, at: map<nat, Path>, m': Memory, at': map<nat, Path>, f: nat,
                                      segs: Path)
    requires at.Keys <= m.heap.Keys && at'.Keys <= m'.heap.Keys
    requires Sound(m) && Grows(m, at, m', at') && f in at && Lands(m, at, f, segs)
    ensures Lands(m', at', f, segs)
    decreases |segs|
  {
    var v := m.heap[f].fields[segs[0]];
    if Made(at', m'.heap[f].fields[segs[0]]) {
      LandsStays(m, at, m', at', v.r, segs[1..]);
    }
  }

  /** If the rest of a path lands from a property's object, the path lands. */
  lemma LandsThrough(m: Memory, at: map<nat, Path>, m': Memory, at': map<nat, Path>, cur: nat, segs: Path)
    requires at.Keys <= m.heap.Keys && at'.Keys <= m'.heap.Keys && Sound(m) && Grows(m, at, m', at')
    requires cur in at && segs != [] && segs[0] in m.heap[cur].fields
    requires Made(at, m.heap[cur].fields[segs[0]]) ==> Lands(m', at', m.heap[cur].fields[segs[0]].r, segs[1..])
    ensures Lands(m', at', cur, segs)
  {
  }

  /** After a write of the path that runs from `cur` over `segs`: the shape is kept, only that path
      is added, and it lands. */
  ghost predicate Written(i: Input, m: Memory, at: map<nat, Path>, m': Memory, at': map<nat, Path>, cur: nat,
                          segs: Path, paths: set<Path>)
    requires at.Keys <= m.heap.Keys && cur in at
  {
    && Shape(i, m', at')
    && Asked(m', at', paths + {at[cur] + segs})
    && Grows(m, at, m', at')
    && Lands(m', at', cur, segs)
  }

  ghost predicate Writable(i: Input, m: Memory, at: map<nat, Path>, cur: nat, segs: Path, v: Value, paths: set<Path>) {
    && Shape(i, m, at) && Asked(m, at, paths) && cur in at && segs != [] && Known(m.heap, v)
    && v != Undefined && v == i.At(at[cur] + segs)
  }

  /** Setting one requested path from a made object. */
  lemma {:induction false} SetOne(i: Input, m: Memory, at: map<nat, Path>, cur: nat, segs: Path, v: Value,
                                  paths: set<Path>)
    returns (at': map<nat, Path>)
    requires Writable(i, m, at, cur, segs, v, paths)
    ensures Written(i, m, at, Set(m, cur, segs, v), at', cur, segs, paths)
    decreases |segs|, 1
  {
    if |segs| == 1 {
      assert segs == [segs[0]];
      var m' := WriteLeaf(i, m, at, cur, segs[0], v, paths);
      at' := at;
    } else if segs[0] in m.heap[cur].fields {
      at' := SetThrough(i, m, at, cur, segs, v, paths);
    } else {
      at' := SetNew(i, m, at, cur, segs, v, paths);
    }
  }

  lemma SplitFirst(prefix: Path, segs: Path)
    requires segs != []
    ensures prefix + [segs[0]] <= prefix + segs && prefix + segs == (prefix + [segs[0]]) + segs[1..]
  {
  }

  lemma SetCreates(m: Memory, cur: nat, segs: Path, v: Value)
    requires cur in m.heap && |segs| > 1 && Sound(m) && Known(m.heap, v) && segs[0] !in m.heap[cur].fields
    ensures var m1 := Memory(Write(m.heap[m.next := EMPTY_OBJECT], cur, segs[0], Ref(m.next)), m.next + 1);
            && Sound(m1) && Known(m1.heap, v)
            && Set(m, cur, segs, v) == Set(m1, m.next, segs[1..], v)
  {
  }

  /** The property is missing: a new object takes its place. */
  lemma {:induction false} SetNew(i: Input, m: Memory, at: map<nat, Path>, cur: nat, segs: Path, v: Value,
                                  paths: set<Path>)
    returns (at': map<nat, Path>)
    requires Writable(i, m, at, cur, segs, v, paths) && |segs| > 1 && segs[0] !in m.heap[cur].fields
    ensures Written(i, m, at, Set(m, cur, segs, v), at', cur, segs, paths)
    decreases |segs|, 0
  {
    var p := at[cur] + segs;
    SplitFirst(at[cur], segs);
    StepOfDefined(i, at[cur], segs);
    SetCreates(m, cur, segs, v);
    var m1, at1 := GrowBranch(i, m, at, cur, segs[0], p, paths);
    at' := SetOne(i, m1, at1, m.next, segs[1..], v, paths + {p});
    NewBranchLands(i, m, at, m1, at1, Set(m1, m.next, segs[1..], v), at', cur, segs, paths);
  }

  lemma NewBranchLands(i: Input, m: Memory, at: map<nat, Path>, m1: Memory, at1: map<nat, Path>, m': Memory,
                       at': map<nat, Path>, cur: nat, segs: Path, paths: set<Path>)
    requires at.Keys <= m.heap.Keys && at1.Keys <= m1.heap.Keys && cur in at && segs != []
    requires Sound(m1) && Grows(m, at, m1, at1)
    requires segs[0] in m1.heap[cur].fields && Made(at1, m1.heap[cur].fields[segs[0]])
    requires var g := m1.heap[cur].fields[segs[0]].r;
             && at1[g] + segs[1..] == at[cur] + segs
             && Written(i, m1, at1, m', at', g, segs[1..], paths + {at[cur] + segs})
    ensures Written(i, m, at, m', at', cur, segs, paths)
  {
    var p := at[cur] + segs;
    assert paths + {p} + {p} == paths + {p};
    GrowsTransitive(m, at, m1, at1, m', at');
    LandsThrough(m1, at1, m', at', cur, segs);
  }

  /** The property is there: a made object to go on in, or an input object shared with the source. */
  lemma {:induction false} SetThrough(i: Input, m: Memory, at: map<nat, Path>, cur: nat, segs: Path, v: Value,
                                      paths: set<Path>)
    returns (at': map<nat, Path>)
    requires Writable(i, m, at, cur, segs, v, paths) && |segs| > 1 && segs[0] in m.heap[cur].fields
    ensures Written(i, m, at, Set(m, cur, segs, v), at', cur, segs, paths)
    decreases |segs|, 0
  {
    var q, child := at[cur] + [segs[0]], m.heap[cur].fields[segs[0]];
    StepOfDefined(i, at[cur], segs);
    assert EdgeOk(i, at, q, child);
    SplitFirst(at[cur], segs);
    if Made(at, child) {
      at' := SetOne(i, m, at, child.r, segs[1..], v, paths);
      LandsThrough(m, at, Set(m, cur, segs, v), at', cur, segs);
    } else {
      at' := at;
      ClosedGet(i.heap, Ref(i.src), q);
      GetAppend(i.heap, Ref(i.src), q, segs[1..]);
      AliasWrite(m, i.heap, child.r, segs[1..], v);
      AskedMore(m, at, paths, at[cur] + segs);
    }
  }

  // ------------------------------------------------------------------- all paths

  /** Input objects read the same on the grown heap. */
  lemma {:induction false} InputReadsSame(i: Input, m: Memory, at: map<nat, Path>, v: Value, p: Path)
    requires Shape(i, m, at) && Known(i.heap, v)
    ensures Get(m.heap, v, p) == Get(i.heap, v, p)
    decreases |p|
  {
    if p != [] && v.Ref? {
      InputReadsSame(i, m, at, Prop(i.heap, v, p[0]), p[1..]);
    }
  }

  /** The requested paths the source has a value for. */
  ghost function Defined(i: Input, paths: seq<Path>): set<Path> {
    set p | p in paths && i.At(p) != Undefined
  }

  ghost predicate AllLand(m: Memory, at: map<nat, Path>, root: nat, asked: set<Path>)
    requires at.Keys <= m.heap.Keys && root in at
  {
    forall p :: p in asked ==> Lands(m, at, root, p)
  }

  ghost predicate Projected(i: Input, m: Memory, at: map<nat, Path>, root: nat, asked: set<Path>) {
    Shape(i, m, at) && Asked(m, at, asked) && root in at && at[root] == [] && AllLand(m, at, root, asked)
  }

  lemma {:induction false} ProjectAll(i: Input, m: Memory, at: map<nat, Path>, root: nat, paths: seq<Path>,
                                      asked: set<Path>)
    returns (at': map<nat, Path>)
    requires Projected(i, m, at, root, asked)
    requires forall k :: 0 <= k < |paths| ==> paths[k] != []
    ensures Projected(i, Project(m, Ref(i.src), root, paths), at', root, asked + Defined(i, paths))
    decreases |paths|
  {
    if paths == [] {
      at' := at;
      assert asked + Defined(i, paths) == asked;
    } else {
      var p := paths[0];
      InputReadsSame(i, m, at, Ref(i.src), p);
      if i.At(p) == Undefined {
        assert Defined(i, paths) == Defined(i, paths[1..]);
        at' := ProjectAll(i, m, at, root, paths[1..], asked);
      } else {
        assert asked + Defined(i, paths) == (asked + {p}) + Defined(i, paths[1..]);
        var at1 := ProjectOne(i, m, at, root, p, asked);
        at' := ProjectAll(i, Set(m, root, p, i.At(p)), at1, root, paths[1..], asked + {p});
      }
    }
  }

  lemma ProjectOne(i: Input, m: Memory, at: map<nat, Path>, root: nat, p: Path,
                   asked: set<Path>) returns (at1: map<nat, Path>)
    requires Projected(i, m, at, root, asked) && p != [] && i.At(p) != Undefined
    ensures Known(m.heap, i.At(p))
    ensures Projected(i, Set(m, root, p, i.At(p)), at1, root, asked + {p})
  {
    ClosedGet(i.heap, Ref(i.src), p);
    assert at[root] + p == p;
    at1 := SetOne(i, m, at, root, p, i.At(p), asked);
    var m1 := Set(m, root, p, i.At(p));
    forall q | q in asked + {p} ensures Lands(m1, at1, root, q) {
      if q != p { LandsStays(m, at, m1, at1, root, q); }
    }
  }

  lemma {:induction false} LandedReadsSame(i: Input, m: Memory, at: map<nat, Path>, f: nat, segs: Path)
    requires Shape(i, m, at) && f in at && Lands(m, at, f, segs)
    ensures Get(m.heap, Ref(f), segs) == i.At(at[f] + segs)
    decreases |segs|
  {
    var q, v := at[f] + [segs[0]], m.heap[f].fields[segs[0]];
    SplitFirst(at[f], segs);
    assert EdgeOk(i, at, q, v);
    if Made(at, v) {
      LandedReadsSame(i, m, at, v.r, segs[1..]);
    } else {
      ClosedGet(i.heap, Ref(i.src), q);
      InputReadsSame(i, m, at, v, segs[1..]);
      GetAppend(i.heap, Ref(i.src), q, segs[1..]);
    }
  }

  lemma MissingProperty(h: Heap, f: nat, segs: Path)
    requires f in h && segs != [] && segs[0] !in h[f].fields
    ensures Get(h, Ref(f), segs) == Undefined
  {
    assert Get(h, Undefined, segs[1..]) == Undefined;
  }

  lemma {:induction false} NothingElse(i: Input, m: Memory, at: map<nat, Path>, f: nat, segs: Path,
                                       asked: set<Path>) returns (p: Path)
    requires Shape(i, m, at) && Asked(m, at, asked) && f in at && segs != []
    requires Get(m.heap, Ref(f), segs) != Undefined
    ensures p in asked && (at[f] + segs <= p || p <= at[f] + segs)
    decreases |segs|
  {
    if segs[0] !in m.heap[f].fields { MissingProperty(m.heap, f, segs); assert false; }
    var q, v := at[f] + [segs[0]], m.heap[f].fields[segs[0]];
    SplitFirst(at[f], segs);
    assert EdgeOk(i, at, q, v) && EdgeAsked(at, q, v, asked);
    if !Made(at, v) {
      p := q;
    } else if |segs| == 1 {
      assert segs == [segs[0]];
      p :| p in asked && q <= p;
    } else {
      p := NothingElse(i, m, at, v.r, segs[1..], asked);
    }
  }

  /** The input's objects are as they were. */
  ghost predicate Untouched(before: Heap, after: Heap) {
    forall r :: r in before ==> r in after && after[r] == before[r]
  }

  /** Every requested path with a value in the input has that very value in the result. */
  ghost predicate Agrees(before: Heap, src: nat, after: Heap, root: nat, paths: seq<Path>) {
    forall p :: p in paths && Get(before, Ref(src), p) != Undefined ==>
      Get(after, Ref(root), p) == Get(before, Ref(src), p)
  }

  ghost predicate OnPath(before: Heap, src: nat, paths: seq<Path>, q: Path) {
    exists p :: p in paths && Get(before, Ref(src), p) != Undefined && (q <= p || p <= q)
  }

  /** Everything in the result lies on the way to, or below, a requested path with a value. */
  ghost predicate NothingOff(before: Heap, src: nat, after: Heap, root: nat, paths: seq<Path>) {
    forall q :: q != [] && Get(after, Ref(root), q) != Undefined ==> OnPath(before, src, paths, q)
  }

  lemma ProjectedFacts(i: Input, m: Memory, at: map<nat, Path>, root: nat, paths: seq<Path>)
    requires Projected(i, m, at, root, Defined(i, paths))
    ensures Untouched(i.heap, m.heap)
    ensures Agrees(i.heap, i.src, m.heap, root, paths)
    ensures NothingOff(i.heap, i.src, m.heap, root, paths)
  {
    forall p | p in paths && Get(i.heap, Ref(i.src), p) != Undefined
      ensures Get(m.heap, Ref(root), p) == Get(i.heap, Ref(i.src), p)
    {
      assert p in Defined(i, paths);
      LandedReadsSame(i, m, at, root, p);
      assert at[root] + p == p;
    }
    forall q | q != [] && Get(m.heap, Ref(root), q) != Undefined ensures OnPath(i.heap, i.src, paths, q) {
      var p := NothingElse(i, m, at, root, q, Defined(i, paths));
      assert at[root] + q == q;
      assert p in paths && Get(i.heap, Ref(i.src), p) != Undefined;
    }
  }

  lemma StartProjected(m: Memory, src: nat)
    requires Sound(m) && src in m.heap
    ensures Projected(Input(m.heap, src), WithRoot(m), map[m.next := []], m.next, {})
  {
    assert m.next !in m.heap;
  }

  lemma FilteredIsProjected(m: Memory, src: nat, paths: seq<Path>) returns (at: map<nat, Path>)
    requires Sound(m) && src in m.heap
    requires forall k :: 0 <= k < |paths| ==> paths[k] != []
    ensures Projected(Input(m.heap, src), Filtered(m, src, paths), at, m.next, Defined(Input(m.heap, src), paths))
  {
    var i := Input(m.heap, src);
    StartProjected(m, src);
    at := ProjectAll(i, WithRoot(m), map[m.next := []], m.next, paths, {});
    assert {} + Defined(i, paths) == Defined(i, paths);
  }

  /** filterObject, for any list of non-empty paths in any order, overlapping or not: the result
      agrees with the input on every requested path that has a value, holds nothing off those
      paths, and the input is unchanged although the result shares its sub-objects. */
  lemma FilterObjectTheorem(m: Memory, src: nat, paths: seq<Path>)
    requires Sound(m) && src in m.heap
    requires forall k :: 0 <= k < |paths| ==> paths[k] != []
    ensures Untouched(m.heap, Filtered(m, src, paths).heap)
    ensures Agrees(m.heap, src, Filtered(m, src, paths).heap, m.next, paths)
    ensures NothingOff(m.heap, src, Filtered(m, src, paths).heap, m.next, paths)
  {
    var at := FilteredIsProjected(m, src, paths);
    ProjectedFacts(Input(m.heap, src), Filtered(m, src, paths), at, m.next, paths);
  }

  // ------------------------------------------------------------------- lists of objects

  lemma {:induction false} GetUntouched(m: Memory, after: Heap, v: Value, p: Path)
    requires Sound(m) && Known(m.heap, v) && Untouched(m.heap, after)
    ensures Get(after, v, p) == Get(m.heap, v, p)
    decreases |p|
  {
    if p != [] && v.Ref? {
      GetUntouched(m, after, Prop(m.heap, v, p[0]), p[1..]);
    }
  }

  /** What filtering promises about one element and its result. */
  ghost predicate FilteredWell(before: Heap, v: Value, after: Heap, r: Value, paths: seq<Path>) {
    if Plain(before, v) then r.Ref? && Agrees(before, v.r, after, r.r, paths)
      && NothingOff(before, v.r, after, r.r, paths)
    else r == v
  }

  lemma OneFilteredWell(m: Memory, v: Value, paths: seq<Path>)
    requires Sound(m) && Known(m.heap, v) && forall k :: 0 <= k < |paths| ==> paths[k] != []
    ensures var r := FilterOne(m, v, paths);
            Untouched(m.heap, r.0.heap) && FilteredWell(m.heap, v, r.0.heap, r.1, paths)
  {
    if Plain(m.heap, v) {
      FilterObjectTheorem(m, v.r, paths);
    }
  }

  /** A result stays good while other objects are made after it. */
  lemma StaysFilteredWell(before: Memory, v: Value, m: Memory, r: Value, after: Heap, paths: seq<Path>)
    requires Sound(m) && Known(m.heap, r) && Untouched(m.heap, after)
    requires FilteredWell(before.heap, v, m.heap, r, paths)
    ensures FilteredWell(before.heap, v, after, r, paths)
  {
    if Plain(before.heap, v) {
      forall q: Path ensures Get(after, r, q) == Get(m.heap, r, q) {
        GetUntouched(m, after, r, q);
      }
    }
  }

  /** A result made after other objects is as good with respect to the heap before them. */
  lemma WasFilteredWell(before: Memory, m: Memory, v: Value, after: Heap, r: Value, paths: seq<Path>)
    requires Sound(before) && Known(before.heap, v) && Untouched(before.heap, m.heap)
    requires FilteredWell(m.heap, v, after, r, paths)
    ensures FilteredWell(before.heap, v, after, r, paths)
  {
    if Plain(before.heap, v) {
      forall q: Path ensures Get(m.heap, v, q) == Get(before.heap, v, q) {
        GetUntouched(before, m.heap, v, q);
      }
      OnPathWas(before, m, v, paths);
    }
  }

  lemma OnPathWas(before: Memory, m: Memory, v: Value, paths: seq<Path>)
    requires v.Ref? && forall q: Path :: Get(m.heap, v, q) == Get(before.heap, v, q)
    ensures forall q :: OnPath(m.heap, v.r, paths, q) ==> OnPath(before.heap, v.r, paths, q)
  {
    forall q | OnPath(m.heap, v.r, paths, q) ensures OnPath(before.heap, v.r, paths, q) {
      var p :| p in paths && Get(m.heap, Ref(v.r), p) != Undefined && (q <= p || p <= q);
      assert Get(before.heap, Ref(v.r), p) != Undefined;
    }
  }

  /** Filtering a list leaves every input object as it was, and filters each element well, even when
      elements share sub-objects with each other or occur twice. */
  lemma {:induction false} FilterItemsTheorem(m: Memory, items: seq<Value>, paths: seq<Path>)
    requires Sound(m) && AllKnown(m.heap, items) && forall k :: 0 <= k < |paths| ==> paths[k] != []
    ensures var r := FilterItems(m, items, paths);
            Untouched(m.heap, r.0.heap)
            && forall k :: 0 <= k < |items| ==> FilteredWell(m.heap, items[k], r.0.heap, r.1[k], paths)
    decreases |items|
  {
    if items != [] {
      var first := FilterOne(m, items[0], paths);
      var rest := FilterItems(first.0, items[1..], paths);
      OneFilteredWell(m, items[0], paths);
      FilterItemsTheorem(first.0, items[1..], paths);
      StaysFilteredWell(m, items[0], first.0, first.1, rest.0.heap, paths);
      forall k | 1 <= k < |items| ensures FilteredWell(m.heap, items[k], rest.0.heap, rest.1[k - 1], paths) {
        assert items[1..][k - 1] == items[k];
        WasFilteredWell(m, first.0, items[k], rest.0.heap, rest.1[k - 1], paths);
      }
    }
  }
}
