/**
 Reference-count accounting across every container that shares one heap.

 A world is the sequence of all containers (and any other handle holders,
 each seen as a container) alive at one moment. The heap is accounted for when
 each object's count is exactly the number of handles to it in the world. An
 operation on one container keeps that invariant when it transfers ownership:
 every change in an object's count matches the change in the number of that
 container's handles to it.
 */
module Ownership {
  import opened Slots
  import opened Heaps

  /** Number of handles to `id` held by all containers of `w`. */
  function Total(w: seq<Vector>, id: ObjId): nat
  {
    if |w| == 0 then 0 else Total(w[..|w| - 1], id) + Count(w[|w| - 1], id)
  }

  /** Each object's count equals the number of handles in the world that refer
      to it (and an address with no object has no handles). */
  ghost predicate Accounted<T>(h: Heap<T>, w: seq<Vector>)
  {
    forall id :: RefsOf(h, id) == Total(w, id)
  }

  /** A container operation turned container `v` into `v'` and heap `h` into
      `h'` honestly: counts move with handles, objects keep their values, new
      objects take unused addresses, and an object whose count reaches 0 is
      freed (only a never-adopted object may stay with count 0). */
  ghost predicate Transfers<T>(h: Heap<T>, v: Vector, h': Heap<T>, v': Vector)
  {
    && h.next <= h'.next
    && (forall id :: RefsOf(h', id) + Count(v, id) == RefsOf(h, id) + Count(v', id))
    && (forall id :: id in h'.objs && id in h.objs ==> h'.objs[id].val == h.objs[id].val)
    && (forall id :: id in h'.objs && id !in h.objs ==> h.next <= id)
    && (forall id :: id in h'.objs && RefsOf(h', id) == 0 ==> id in h.objs && RefsOf(h, id) == 0)
  }

  /** Replacing one container of the world changes the total by the change in
      that container's handles. */
  lemma {:induction false} TotalUpdate(w: seq<Vector>, k: nat, v': Vector, id: ObjId)
    requires k < |w|
    ensures Total(w[k := v'], id) + Count(w[k], id) == Total(w, id) + Count(v', id)
    decreases |w|
  {
    var n := |w| - 1;
    var w' := w[k := v'];
    if k == n {
      assert w'[..n] == w[..n];
    } else {
      TotalUpdate(w[..n], k, v', id);
      assert w'[..n] == w[..n][k := v'];
    }
  }

  /** One container never holds more handles than the whole world. */
  lemma {:induction false} CountLeTotal(w: seq<Vector>, k: nat, id: ObjId)
    requires k < |w|
    ensures Count(w[k], id) <= Total(w, id)
    decreases |w|
  {
    var n := |w| - 1;
    if k < n {
      CountLeTotal(w[..n], k, id);
      assert w[..n][k] == w[k];
    }
  }

  /** Removing a container from the world removes exactly its handles. */
  lemma {:induction false} TotalRemove(w: seq<Vector>, k: nat, id: ObjId)
    requires k < |w|
    ensures Total(w[..k] + w[k + 1..], id) + Count(w[k], id) == Total(w, id)
    decreases |w|
  {
    var n := |w| - 1;
    var w' := w[..k] + w[k + 1..];
    if k == n {
      assert w' == w[..n];
    } else {
      TotalRemove(w[..n], k, id);
      assert w'[..|w'| - 1] == w[..n][..k] + w[..n][k + 1..];
      assert w'[|w'| - 1] == w[n];
    }
  }

  /** Adding a container to the world adds exactly its handles. */
  lemma TotalAppend(w: seq<Vector>, v: Vector, id: ObjId)
    ensures Total(w + [v], id) == Total(w, id) + Count(v, id)
  {
    assert (w + [v])[..|w|] == w;
  }

  /** In an accounted world every container's handles are owned and live. */
  lemma AccountedOwned<T>(h: Heap<T>, w: seq<Vector>, k: nat)
    requires Accounted(h, w) && k < |w|
    ensures Owned(h, w[k]) && LiveRefs(h, w[k])
  {
    forall id ensures Count(w[k], id) <= RefsOf(h, id) {
      CountLeTotal(w, k, id);
    }
    OwnedLive(h, w[k]);
  }

  /** The reference-count invariant survives any honest operation on one container. */
  lemma AccountedAfterTransfer<T>(h: Heap<T>, w: seq<Vector>, k: nat, h': Heap<T>, v': Vector)
    requires Accounted(h, w) && k < |w|
    requires Transfers(h, w[k], h', v')
    ensures Accounted(h', w[k := v'])
  {
    forall id ensures RefsOf(h', id) == Total(w[k := v'], id) {
      TotalUpdate(w, k, v', id);
    }
  }

  /** A new, still empty container joins the world without changing any count. */
  lemma AccountedOpen<T>(h: Heap<T>, w: seq<Vector>)
    requires Accounted(h, w)
    ensures Accounted(h, w + [[]])
  {
    forall id ensures RefsOf(h, id) == Total(w + [[]], id) {
      TotalAppend(w, [], id);
    }
  }

  /** An emptied container leaves the world without changing any count. */
  lemma AccountedClose<T>(h: Heap<T>, w: seq<Vector>, k: nat)
    requires Accounted(h, w) && k < |w| && w[k] == []
    ensures Accounted(h, w[..k] + w[k + 1..])
  {
    forall id ensures RefsOf(h, id) == Total(w[..k] + w[k + 1..], id) {
      TotalRemove(w, k, id);
    }
  }

  /** A raw `new` by the caller keeps the world accounted: nothing owns the
      fresh object yet. */
  lemma AccountedNew<T>(h: Heap<T>, w: seq<Vector>, x: T)
    requires Accounted(h, w)
    ensures Accounted(New(h, x).0, w)
  {
    var h' := New(h, x).0;
    forall id ensures RefsOf(h', id) == Total(w, id) {
      assert RefsOf(h', id) == RefsOf(h, id);
    }
  }

  /** Two honest steps in a row make one honest step. */
  lemma TransfersTrans<T>(h1: Heap<T>, v1: Vector, h2: Heap<T>, v2: Vector, h3: Heap<T>, v3: Vector)
    requires Transfers(h1, v1, h2, v2) && Transfers(h2, v2, h3, v3)
    ensures Transfers(h1, v1, h3, v3)
  {
    forall id ensures RefsOf(h3, id) + Count(v1, id) == RefsOf(h1, id) + Count(v3, id) {
      assert RefsOf(h3, id) + Count(v2, id) == RefsOf(h2, id) + Count(v3, id);
      assert RefsOf(h2, id) + Count(v1, id) == RefsOf(h1, id) + Count(v2, id);
    }
    forall id | id in h3.objs && id in h1.objs
      ensures id in h2.objs && h3.objs[id].val == h1.objs[id].val
    {
      assert id < h1.next;
    }
  }

  /** What an honest step leaves of `v`'s handles is still owned in `h'`. */
  lemma OwnedAfterTransfer<T>(h: Heap<T>, v: Vector, h': Heap<T>, v': Vector)
    requires Owned(h, v) && Transfers(h, v, h', v')
    ensures Owned(h', v')
  {
    forall id ensures Count(v', id) <= RefsOf(h', id) {
      assert RefsOf(h', id) + Count(v, id) == RefsOf(h, id) + Count(v', id);
    }
  }
}
