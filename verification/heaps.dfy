/**
 The heap the container's handles point into, with one reference count per
 object: the `use_count` of its `std::shared_ptr` control block.

 An object whose count is 0 has been allocated with `new` by the caller but
 not yet adopted by any handle; it is the caller's to adopt. Once adopted, an
 object is freed exactly when its count drops back to 0.
 */
module Heaps {
  import opened Slots

  /** A live heap object: its value and the number of handles that own it. */
  datatype Obj<T> = Obj(val: T, refs: nat)

  datatype HeapRep<T> = HeapRep(objs: map<ObjId, Obj<T>>, next: ObjId)

  /** The live objects by address, and the allocator's next unused address. */
  type Heap<T> = h: HeapRep<T> | forall id :: id in h.objs ==> id < h.next
    witness HeapRep(map[], 0)

  /** Number of handles owning `id`; 0 for an address that holds no object. */
  function RefsOf<T>(h: Heap<T>, id: ObjId): nat
  {
    if id in h.objs then h.objs[id].refs else 0
  }

  /** `p` may be adopted by a new handle: it is null, or a live object that no
      handle owns yet (adopting an owned pointer a second time is an error). */
  predicate Adoptable<T>(h: Heap<T>, p: Ptr)
  {
    p.Addr? ==> p.id in h.objs && h.objs[p.id].refs == 0
  }

  /** Releasing the handle `s` is possible: it is empty or its object is owned. */
  predicate Backed<T>(h: Heap<T>, s: Slot)
  {
    s.Ref? ==> RefsOf(h, s.id) >= 1
  }

  /** Every handle of `v` points at a live object. */
  predicate LiveRefs<T>(h: Heap<T>, v: Vector)
  {
    forall i :: 0 <= i < |v| && v[i].Ref? ==> v[i].id in h.objs
  }

  /** The heap accounts for at least the handles `v` holds. */
  ghost predicate Owned<T>(h: Heap<T>, v: Vector)
  {
    forall id :: Count(v, id) <= RefsOf(h, id)
  }

  /** The object at `o`, if there was one in `h`, is still in `h'`, unchanged. */
  ghost predicate Untouched<T>(h: Heap<T>, h': Heap<T>, o: ObjId)
  {
    o in h.objs ==> o in h'.objs && h'.objs[o] == h.objs[o]
  }

  /** `new T(x)`: a fresh object with value `x` that no handle owns yet. */
  function New<T>(h: Heap<T>, x: T): (r: (Heap<T>, Ptr))
    ensures r.1.Addr? && r.1.id !in h.objs && h.next <= r.1.id
    ensures r.0.objs == h.objs[r.1.id := Obj(x, 0)]
    ensures h.next <= r.0.next
    ensures Adoptable(r.0, r.1)
  {
    (HeapRep(h.objs[h.next := Obj(x, 0)], h.next + 1), Addr(h.next))
  }

  /** One more handle shares ownership of `id` (a `shared_ptr` copy). */
  function Retain<T>(h: Heap<T>, id: ObjId): (r: Heap<T>)
    requires id in h.objs
    ensures r.next == h.next && r.objs.Keys == h.objs.Keys
    ensures r.objs[id] == h.objs[id].(refs := h.objs[id].refs + 1)
    ensures forall o :: o != id ==> Untouched(h, r, o)
  {
    HeapRep(h.objs[id := h.objs[id].(refs := h.objs[id].refs + 1)], h.next)
  }

  /** One handle to `id` is destroyed; the last one frees the object. */
  function Release<T>(h: Heap<T>, id: ObjId): (r: Heap<T>)
    requires RefsOf(h, id) >= 1
    ensures r.next == h.next && r.objs.Keys <= h.objs.Keys
    ensures RefsOf(r, id) == RefsOf(h, id) - 1
    ensures id in r.objs <==> RefsOf(h, id) > 1
    ensures id in r.objs ==> r.objs[id].val == h.objs[id].val
    ensures forall o :: o != id ==> Untouched(h, r, o)
  {
    var obj := h.objs[id];
    if obj.refs == 1 then HeapRep(h.objs - {id}, h.next)
    else HeapRep(h.objs[id := obj.(refs := obj.refs - 1)], h.next)
  }

  /** Copies every handle of `v` once: each object gains one owner per slot. */
  function RetainAll<T>(h: Heap<T>, v: Vector): (r: Heap<T>)
    requires LiveRefs(h, v)
    ensures r.next == h.next && r.objs.Keys == h.objs.Keys
    ensures forall id :: id in h.objs ==> r.objs[id].val == h.objs[id].val
    ensures forall id :: RefsOf(r, id) == RefsOf(h, id) + Count(v, id)
    ensures forall o :: Count(v, o) == 0 ==> Untouched(h, r, o)
    decreases |v|
  {
    if |v| == 0 then h
    else
      var init := v[..|v| - 1];
      var last := v[|v| - 1];
      var h1 := RetainAll(h, init);
      assert v == init + [last];
      assert forall id :: Count(v, id) == Count(init, id) + (if last == Ref(id) then 1 else 0) by {
        forall id ensures Count(v, id) == Count(init, id) + (if last == Ref(id) then 1 else 0) {
          CountAppend(init, last, id);
        }
      }
      if last.Ref? then Retain(h1, last.id) else h1
  }

  /** A heap that accounts for the handles of `v` can release the last of them. */
  lemma OwnedBacked<T>(h: Heap<T>, v: Vector)
    requires Owned(h, v) && |v| > 0
    ensures Backed(h, v[|v| - 1])
  {
    if v[|v| - 1].Ref? {
      CountPositive(v, |v| - 1);
    }
  }

  /** A heap that accounts for the handles of `v` has every one of them live. */
  lemma OwnedLive<T>(h: Heap<T>, v: Vector)
    requires Owned(h, v)
    ensures LiveRefs(h, v)
  {
    forall i | 0 <= i < |v| && v[i].Ref?
      ensures v[i].id in h.objs
    {
      CountPositive(v, i);
    }
  }
}
