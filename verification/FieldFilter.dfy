/**
 * Trimming a response to requested field paths. Objects live on an explicit heap, because the
 * result shares sub-objects with its input and later paths are written through the shared parts.
 */
module FieldFilter {
  /** A JavaScript value; objects and arrays are references. */
  datatype Value = Undefined | Null | Prim(text: string) | Ref(r: nat)

  datatype Object = Object(isArray: bool, fields: map<string, Value>)

  type Heap = map<nat, Object>

  type Path = seq<string>

  /** `v[seg]`, undefined when there is no such property. */
  function Prop(h: Heap, v: Value, seg: string): Value {
    if v.Ref? && v.r in h && seg in h[v.r].fields then h[v.r].fields[seg] else Undefined
  }

  /** The value at a path. */
  function Get(h: Heap, v: Value, segs: Path): Value
    decreases |segs|
  {
    if segs == [] then v
    else if !v.Ref? then Undefined
    else Get(h, Prop(h, v, segs[0]), segs[1..])
  }

  /** The value at a path is the value itself at its end; before that, what the first segment's property
      leads to, and nothing from a value that is no object or has no such property. */
  lemma GetMeans(h: Heap, v: Value, seg: string, rest: Path)
    ensures Get(h, v, []) == v
    ensures v.Ref? && v.r in h && seg in h[v.r].fields ==>
              Get(h, v, [seg] + rest) == Get(h, h[v.r].fields[seg], rest)
    ensures !(v.Ref? && v.r in h && seg in h[v.r].fields) ==> Get(h, v, [seg] + rest) == Undefined
  {
    assert ([seg] + rest)[1..] == rest;
  }

  function Write(h: Heap, r: nat, seg: string, v: Value): Heap
    requires r in h
  {
    h[r := h[r].(fields := h[r].fields[seg := v])]
  }

  const EMPTY_OBJECT := Object(false, map[])

  datatype Memory = Memory(heap: Heap, next: nat)

  /** No reference dangles, and `next` is unused. */
  ghost predicate Sound(m: Memory) {
    && (forall r :: r in m.heap ==> r < m.next)
    && (forall r, k :: r in m.heap && k in m.heap[r].fields && m.heap[r].fields[k].Ref? ==>
      m.heap[r].fields[k].r in m.heap)
  }

  ghost predicate Known(h: Heap, v: Value) { v.Ref? ==> v.r in h }

  lemma {:induction false} GetIsKnown(m: Memory, v: Value, segs: Path)
    requires Sound(m) && Known(m.heap, v)
    ensures Known(m.heap, Get(m.heap, v, segs))
    decreases |segs|
  {
    if segs != [] && v.Ref? {
      GetIsKnown(m, Prop(m.heap, v, segs[0]), segs[1..]);
    }
  }

  /** setNestedValue: walk or create the intermediate objects, then assign. */
  function Set(m: Memory, cur: nat, segs: Path, v: Value): (m': Memory)
    requires cur in m.heap && segs != [] && Sound(m) && Known(m.heap, v)
    ensures Sound(m') && m.heap.Keys <= m'.heap.Keys
    decreases |segs|
  {
    if |segs| == 1 then m.(heap := Write(m.heap, cur, segs[0], v))
    else
      var child := Prop(m.heap, Ref(cur), segs[0]);
      if child.Ref? then Set(m, child.r, segs[1..], v)
      else
        var h := Write(m.heap[m.next := EMPTY_OBJECT], cur, segs[0], Ref(m.next));
        Set(Memory(h, m.next + 1), m.next, segs[1..], v)
  }

  /** One pass over the requested paths, writing into `root` what the source has there. */
  function Project(m: Memory, source: Value, root: nat, paths: seq<Path>): (m': Memory)
    requires root in m.heap && Sound(m) && Known(m.heap, source)
    requires forall i :: 0 <= i < |paths| ==> paths[i] != []
    ensures Sound(m') && m.heap.Keys <= m'.heap.Keys
    decreases |paths|
  {
    if paths == [] then m
    else
      var v := Get(m.heap, source, paths[0]);
      GetIsKnown(m, source, paths[0]);
      Project(if v == Undefined then m else Set(m, root, paths[0], v), source, root, paths[1..])
  }

  /** filterObject on an object: a projection into a new object at `m.next`. */
  function Filtered(m: Memory, src: nat, paths: seq<Path>): (m': Memory)
    requires src in m.heap && Sound(m) && forall i :: 0 <= i < |paths| ==> paths[i] != []
    ensures Sound(m') && m.heap.Keys <= m'.heap.Keys && m.next in m'.heap
  {
    Project(WithRoot(m), Ref(src), m.next, paths)
  }

  /** The memory with a new empty object. */
  function WithRoot(m: Memory): Memory {
    Memory(m.heap[m.next := EMPTY_OBJECT], m.next + 1)
  }

  predicate Plain(h: Heap, v: Value) { v.Ref? && v.r in h && !h[v.r].isArray }

  /** filterObject on any value: only an object that is not an array is projected. */
  function FilterOne(m: Memory, v: Value, paths: seq<Path>): (r: (Memory, Value))
    requires Sound(m) && Known(m.heap, v) && forall i :: 0 <= i < |paths| ==> paths[i] != []
    ensures Sound(r.0) && m.heap.Keys <= r.0.heap.Keys && Known(r.0.heap, r.1)
  {
    if Plain(m.heap, v) then (Filtered(m, v.r, paths), Ref(m.next)) else (m, v)
  }

  ghost predicate AllKnown(h: Heap, vs: seq<Value>) { forall i :: 0 <= i < |vs| ==> Known(h, vs[i]) }

  /** The elements of a list, filtered one after the other. */
  function FilterItems(m: Memory, items: seq<Value>, paths: seq<Path>): (r: (Memory, seq<Value>))
    requires Sound(m) && AllKnown(m.heap, items) && forall i :: 0 <= i < |paths| ==> paths[i] != []
    ensures Sound(r.0) && m.heap.Keys <= r.0.heap.Keys && |r.1| == |items|
    decreases |items|
  {
    if items == [] then (m, [])
    else
      var first := FilterOne(m, items[0], paths);
      var rest := FilterItems(first.0, items[1..], paths);
      (rest.0, [first.1] + rest.1)
  }

  /** Whatever is not an array stays none, and what is made is none. */
  ghost predicate NoNewArrays(h: Heap, h': Heap) {
    forall r :: r in h' && h'[r].isArray ==> r in h && h[r].isArray
  }

  lemma {:induction false} SetMakesNoArrays(m: Memory, cur: nat, segs: Path, v: Value)
    requires cur in m.heap && segs != [] && Sound(m) && Known(m.heap, v)
    ensures NoNewArrays(m.heap, Set(m, cur, segs, v).heap)
    decreases |segs|
  {
    if |segs| > 1 {
      var child := Prop(m.heap, Ref(cur), segs[0]);
      if child.Ref? {
        SetMakesNoArrays(m, child.r, segs[1..], v);
      } else {
        var h := Write(m.heap[m.next := EMPTY_OBJECT], cur, segs[0], Ref(m.next));
        SetMakesNoArrays(Memory(h, m.next + 1), m.next, segs[1..], v);
      }
    }
  }

  lemma {:induction false} ProjectMakesNoArrays(m: Memory, source: Value, root: nat, paths: seq<Path>)
    requires root in m.heap && Sound(m) && Known(m.heap, source)
    requires forall i :: 0 <= i < |paths| ==> paths[i] != []
    ensures NoNewArrays(m.heap, Project(m, source, root, paths).heap)
    decreases |paths|
  {
    if paths != [] {
      var v := Get(m.heap, source, paths[0]);
      GetIsKnown(m, source, paths[0]);
      var next := if v == Undefined then m else Set(m, root, paths[0], v);
      if v != Undefined { SetMakesNoArrays(m, root, paths[0], v); }
      ProjectMakesNoArrays(next, source, root, paths[1..]);
    }
  }

  /** A scalar or an array is answered with itself, and nothing is made; an object with a new object. */
  lemma FilterOneMeans(m: Memory, v: Value, paths: seq<Path>)
    requires Sound(m) && Known(m.heap, v) && forall i :: 0 <= i < |paths| ==> paths[i] != []
    ensures var (m', r) := FilterOne(m, v, paths);
            if v.Ref? && !m.heap[v.r].isArray
            then r.Ref? && r.r !in m.heap && r.r in m'.heap && !m'.heap[r.r].isArray
            else r == v && m' == m
  {
    if v.Ref? && !m.heap[v.r].isArray {
      ProjectMakesNoArrays(WithRoot(m), v, m.next, paths);
    }
  }

  // -------------------------------------------------------------- the imperative form

  class JsHeap {
    var objects: Heap
    var next: nat

    ghost function Contents(): Memory
      reads this
    {
      Memory(objects, next)
    }

    constructor ()
      ensures Contents() == Memory(map[], 0)
    {
      objects, next := map[], 0;
    }

    method Allocate() returns (r: nat)
      modifies this
      ensures r == old(next) && Contents() == Memory(old(objects)[r := EMPTY_OBJECT], old(next) + 1)
    {
      r := next;
      objects := objects[r := EMPTY_OBJECT];
      next := next + 1;
    }

    method GetNestedValue(obj: Value, segments: Path) returns (v: Value)
      ensures v == Get(objects, obj, segments)
    {
      v := obj;
      for i := 0 to |segments|
        invariant Get(objects, v, segments[i..]) == Get(objects, obj, segments)
      {
        if !v.Ref? {
          return Undefined;
        }
        v := Prop(objects, v, segments[i]);
        assert segments[i..][1..] == segments[i + 1..];
      }
    }

    method SetNestedValue(obj: nat, segments: Path, v: Value)
      requires obj in objects && segments != [] && Sound(Contents()) && Known(objects, v)
      modifies this
      ensures Contents() == Set(old(Contents()), obj, segments, v)
    {
      var current := obj;
      for i := 0 to |segments| - 1
        invariant current in objects && Sound(Contents()) && Known(objects, v)
        invariant Set(Contents(), current, segments[i..], v) == Set(old(Contents()), obj, segments, v)
      {
        var seg := segments[i];
        assert segments[i..][0] == seg && segments[i..][1..] == segments[i + 1..];
        var child := Prop(objects, Ref(current), seg);
        if !child.Ref? {
          var made := Allocate();
          objects := Write(objects, current, seg, Ref(made));
          child := Ref(made);
        }
        current := child.r;
      }
      var last := segments[|segments| - 1];
      assert segments[|segments| - 1..] == [last];
      objects := Write(objects, current, last, v);
    }

    /** filterObject: scalars and arrays come back as they are, objects as a fresh projection. */
    method FilterObject(obj: Value, fieldPaths: seq<Path>) returns (r: Value)
      requires Sound(Contents()) && Known(objects, obj)
      requires forall i :: 0 <= i < |fieldPaths| ==> fieldPaths[i] != []
      modifies this
      ensures (Contents(), r) == FilterOne(old(Contents()), obj, fieldPaths)
    {
      if !obj.Ref? || objects[obj.r].isArray {
        return obj;
      }
      var result := Allocate();
      ghost var m := Contents();
      for i := 0 to |fieldPaths|
        invariant result in objects && Sound(Contents()) && Known(objects, obj)
        invariant Project(Contents(), obj, result, fieldPaths[i..]) == Project(m, obj, result, fieldPaths)
      {
        var segments := fieldPaths[i];
        assert fieldPaths[i..][0] == segments && fieldPaths[i..][1..] == fieldPaths[i + 1..];
        GetIsKnown(Contents(), obj, segments);
        var value := GetNestedValue(obj, segments);
        if value != Undefined {
          SetNestedValue(result, segments, value);
        }
      }
      r := Ref(result);
    }

    /** body.data.map(item => filterObject(item, fieldPaths)) */
    method FilterData(items: seq<Value>, fieldPaths: seq<Path>) returns (data: seq<Value>)
      requires Sound(Contents()) && AllKnown(objects, items)
      requires forall i :: 0 <= i < |fieldPaths| ==> fieldPaths[i] != []
      modifies this
      ensures (Contents(), data) == FilterItems(old(Contents()), items, fieldPaths)
    {
      data := [];
      ghost var all := FilterItems(Contents(), items, fieldPaths);
      assert items[0..] == items;
      for i := 0 to |items|
        invariant Sound(Contents()) && AllKnown(objects, items[i..])
        invariant FilterItems(Contents(), items[i..], fieldPaths).0 == all.0
        invariant data + FilterItems(Contents(), items[i..], fieldPaths).1 == all.1
      {
        ghost var rest := FilterItems(Contents(), items[i..], fieldPaths).1;
        assert items[i..][0] == items[i] && items[i..][1..] == items[i + 1..];
        var item := FilterObject(items[i], fieldPaths);
        assert data + rest == (data + [item]) + rest[1..];
        data := data + [item];
      }
      assert items[|items|..] == [] && data + [] == data;
    }
  }
}
