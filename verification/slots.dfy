/**
 The element handles of a shared_ptr_vector and the raw pointers they adopt.

 The container stores `std::shared_ptr<T>` handles. A handle either holds null
 or shares ownership of one heap object; the object itself lives in the heap
 model of module Heaps, and a handle only names it by its address.
 */
module Slots {

  /** The address of a heap object: what a non-null raw `T*` holds. */
  type ObjId = nat

  /** A raw pointer `T*` handed to or returned by the container. */
  datatype Ptr = Null | Addr(id: ObjId)

  /** One element of the container, a `std::shared_ptr<T>`: empty (it holds
      null) or sharing ownership of the object at address `id`. */
  datatype Slot = Empty | Ref(id: ObjId)

  /** The container's storage, `std::vector<std::shared_ptr<T>>`, in element order. */
  type Vector = seq<Slot>

  /** `shared_ptr::get()`: the raw pointer a handle holds. */
  function Get(s: Slot): Ptr
  {
    match s
    case Empty => Null
    case Ref(id) => Addr(id)
  }

  /** The handle `shared_ptr<T>(p)` creates when it adopts the raw pointer `p`. */
  function Adopt(p: Ptr): Slot
  {
    match p
    case Null => Empty
    case Addr(id) => Ref(id)
  }

  /** Number of slots of `v` that share ownership of the object at `id`. */
  function Count(v: Vector, id: ObjId): nat
  {
    multiset(v)[Ref(id)]
  }

  /** Every slot of `v` holds an object: none is null. */
  predicate Occupied(v: Vector)
  {
    forall i :: 0 <= i < |v| ==> v[i].Ref?
  }

  /** `std::vector(n, s)`: `n` copies of the handle `s`. */
  function Fill(n: nat, s: Slot): (v: Vector)
    ensures |v| == n
    ensures forall i :: 0 <= i < n ==> v[i] == s
  {
    if n == 0 then [] else Fill(n - 1, s) + [s]
  }

  /** Getting the raw pointer back from the handle that adopted it gives the
      same pointer, and every handle is the adoption of the pointer it holds. */
  lemma AdoptGet(p: Ptr, s: Slot)
    ensures Get(Adopt(p)) == p
    ensures Adopt(Get(s)) == s
  {
  }

  /** `n` copies of one handle share its object `n` times, and nothing else. */
  lemma {:induction false} CountFill(n: nat, s: Slot, id: ObjId)
    ensures Count(Fill(n, s), id) == if s == Ref(id) then n else 0
  {
    if n > 0 {
      CountFill(n - 1, s, id);
      assert multiset(Fill(n, s)) == multiset(Fill(n - 1, s)) + multiset{s};
    }
  }

  /** `n` copies of one handle: the count of every object at once. */
  lemma CountFillAll(n: nat, s: Slot)
    ensures forall id :: Count(Fill(n, s), id) == if s == Ref(id) then n else 0
  {
    forall id ensures Count(Fill(n, s), id) == if s == Ref(id) then n else 0 {
      CountFill(n, s, id);
    }
  }

  /** Appending one handle adds one share of its object and none of any other. */
  lemma CountAppend(v: Vector, s: Slot, id: ObjId)
    ensures Count(v + [s], id) == Count(v, id) + (if s == Ref(id) then 1 else 0)
  {
    assert multiset(v + [s]) == multiset(v) + multiset{s};
  }

  /** A slot that refers to `id` contributes to its count. */
  lemma CountPositive(v: Vector, i: nat)
    requires i < |v| && v[i].Ref?
    ensures Count(v, v[i].id) >= 1
  {
    assert v[i] in multiset(v);
  }

  /** Replacing the handle at index `i` by `s` takes one share from the old
      handle's object and gives one to `s`'s. */
  lemma CountUpdate(v: Vector, i: nat, s: Slot, id: ObjId)
    requires i < |v|
    ensures Count(v[i := s], id) + (if v[i] == Ref(id) then 1 else 0)
         == Count(v, id) + (if s == Ref(id) then 1 else 0)
  {
    assert v == v[..i] + [v[i]] + v[i + 1..];
    assert v[i := s] == v[..i] + [s] + v[i + 1..];
  }

  /** The addresses the handles of `v` own, one entry per occupied slot. */
  function Handles(v: Vector): (m: multiset<ObjId>)
    ensures forall id {:trigger m[id]} :: m[id] == Count(v, id)
    ensures |m| + multiset(v)[Empty] == |v|
    decreases |v|
  {
    if |v| == 0 then multiset{}
    else
      var init := v[..|v| - 1];
      var last := v[|v| - 1];
      assert v == init + [last];
      assert multiset(v) == multiset(init) + multiset{last};
      var m := Handles(init);
      if last.Ref? then m + multiset{last.id} else m
  }

  /** Replacing the handle at index `i`: every object's count at once. */
  lemma CountUpdateAll(v: Vector, i: nat, s: Slot)
    requires i < |v|
    ensures forall id :: Count(v[i := s], id) + (if v[i] == Ref(id) then 1 else 0)
                      == Count(v, id) + (if s == Ref(id) then 1 else 0)
  {
    forall id ensures Count(v[i := s], id) + (if v[i] == Ref(id) then 1 else 0)
                   == Count(v, id) + (if s == Ref(id) then 1 else 0) {
      CountUpdate(v, i, s, id);
    }
  }
}
