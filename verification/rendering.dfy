/**
 The free function `to_string(v)`: the bracketed text form of a container.

 The element type's own `operator<<` is a parameter, `render`. The function
 dereferences every handle, so a container with a null slot has no text form:
 rendering it is undefined behaviour, and the contracts here require every
 slot to be occupied.
 */
module Rendering {
  import opened Slots
  import opened Heaps
  import opened SharedPtrVector

  /** Each element's rendering followed by one space, in element order. */
  function Tokens<T>(v: Vector, h: Heap<T>, render: T -> string): string
    requires Occupied(v) && LiveRefs(h, v)
    decreases |v|
  {
    if |v| == 0 then ""
    else Tokens(v[..|v| - 1], h, render) + render(h.objs[v[|v| - 1].id].val) + " "
  }

  /** The text form: `"[ "`, the tokens, then `"]"`. */
  function Rendered<T>(v: Vector, h: Heap<T>, render: T -> string): string
    requires Occupied(v) && LiveRefs(h, v)
  {
    "[ " + Tokens(v, h, render) + "]"
  }

  /** `s` repeated `n` times. */
  function Repeat(s: string, n: nat): string
  {
    if n == 0 then "" else Repeat(s, n - 1) + s
  }

  /** `to_string(v)`: writes `"[ "`, then each element dereferenced through
      `at(i)` and a space, then `"]"`. */
  method ToString<T>(v: Vector, h: Heap<T>, render: T -> string) returns (s: string)
    requires Occupied(v) && LiveRefs(h, v)
    ensures s == Rendered(v, h, render)
    ensures IsEmpty(v) ==> s == "[ ]"
  {
    s := "[ ";
    var i := 0;
    while i < Size(v)
      invariant 0 <= i <= |v|
      invariant s == "[ " + Tokens(v[..i], h, render)
    {
      var slot := At(v, i);
      assert v[..i + 1][..i] == v[..i];
      s := s + render(h.objs[slot.value.id].val) + " ";
      i := i + 1;
    }
    assert v[..i] == v;
    s := s + "]";
  }

  /** The text depends only on the values of the objects the slots refer to. */
  lemma {:induction false} TokensFrame<T>(v: Vector, h: Heap<T>, h': Heap<T>, render: T -> string)
    requires Occupied(v) && LiveRefs(h, v) && LiveRefs(h', v)
    requires forall i :: 0 <= i < |v| ==> h'.objs[v[i].id].val == h.objs[v[i].id].val
    ensures Tokens(v, h', render) == Tokens(v, h, render)
    decreases |v|
  {
    if |v| > 0 {
      TokensFrame(v[..|v| - 1], h, h', render);
    }
  }

  /** Appending an occupied slot appends its object's token. */
  lemma TokensAppend<T>(v: Vector, id: ObjId, h: Heap<T>, render: T -> string)
    requires Occupied(v) && LiveRefs(h, v) && id in h.objs
    ensures Occupied(v + [Ref(id)]) && LiveRefs(h, v + [Ref(id)])
    ensures Tokens(v + [Ref(id)], h, render) == Tokens(v, h, render) + render(h.objs[id].val) + " "
  {
    assert (v + [Ref(id)])[..|v|] == v;
  }

  /** After `push_back(x)` the text gains `x`'s token just before the `"]"`. */
  lemma RenderPushBackValue<T>(v: Vector, h: Heap<T>, x: T, render: T -> string, r: Step<T>)
    requires Occupied(v) && LiveRefs(h, v)
    requires r == PushBackValue(v, h, x)
    ensures Occupied(r.vec) && LiveRefs(r.heap, r.vec)
    ensures Rendered(r.vec, r.heap, render) == "[ " + Tokens(v, h, render) + render(x) + " ]"
  {
    var a := New(h, x);
    assert r == PushBackPtr(v, a.0, a.1);
    assert LiveRefs(a.0, v);
    TokensFrame(v, h, a.0, render);
    RenderPushBackPtr(v, a.0, a.1, render, r);
  }

  /** After `push_back(p)` the text gains the token of `*p` just before the `"]"`. */
  lemma RenderPushBackPtr<T>(v: Vector, h: Heap<T>, p: Ptr, render: T -> string, r: Step<T>)
    requires Occupied(v) && LiveRefs(h, v)
    requires p.Addr? && Adoptable(h, p)
    requires r == PushBackPtr(v, h, p)
    ensures Occupied(r.vec) && LiveRefs(r.heap, r.vec)
    ensures Rendered(r.vec, r.heap, render) == "[ " + Tokens(v, h, render) + render(h.objs[p.id].val) + " ]"
  {
    assert r.vec == v + [Ref(p.id)];
    forall i | 0 <= i < |v|
      ensures v[i].id in r.heap.objs && r.heap.objs[v[i].id].val == h.objs[v[i].id].val
    {
      if v[i].id != p.id {
        assert Untouched(h, r.heap, v[i].id);
      }
    }
    TokensFrame(v, h, r.heap, render);
    TokensAppend(v, p.id, r.heap, render);
  }

  /** `n` handles to one object render as `n` copies of its token. */
  lemma {:induction false} TokensFill<T>(n: nat, id: ObjId, h: Heap<T>, render: T -> string)
    requires id in h.objs
    ensures Occupied(Fill(n, Ref(id))) && LiveRefs(h, Fill(n, Ref(id)))
    ensures Tokens(Fill(n, Ref(id)), h, render) == Repeat(render(h.objs[id].val) + " ", n)
  {
    if n > 0 {
      TokensFill(n - 1, id, h, render);
      assert Fill(n, Ref(id))[..n - 1] == Fill(n - 1, Ref(id));
    }
  }

  /** `shared_ptr_vector(n, p)` renders as `n` copies of `*p`'s token. */
  lemma RenderSizedAlias<T>(n: nat, p: Ptr, h: Heap<T>, render: T -> string, r: Step<T>)
    requires p.Addr? && Adoptable(h, p)
    requires r == SizedAlias(n, p, h)
    ensures Occupied(r.vec) && LiveRefs(r.heap, r.vec)
    ensures Rendered(r.vec, r.heap, render) == "[ " + Repeat(render(h.objs[p.id].val) + " ", n) + "]"
  {
    assert r.vec == Fill(n, Ref(p.id));
    if n > 0 {
      TokensFill(n, p.id, r.heap, render);
    }
  }
}
