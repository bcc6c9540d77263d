# shared_ptr_vector in Dafny

A model of the live part of the C++ class template `shared_ptr_vector<T>`.
It is an ordered sequence of `std::shared_ptr<T>` handles kept in a
`std::vector`. Callers hand it raw pointers, which it adopts, or plain values,
which it copies onto the heap. Ownership is shared: several slots, in one
container or in several, can own the same object. An object is freed when its
last owning handle is destroyed.

The model is functional:

- `Slots`: a raw pointer `Ptr` (`Null | Addr(id)`). A handle `Slot`
  (`Empty | Ref(id)`). The container's storage `Vector = seq<Slot>`. `Count(v, id)`
  is the number of handles in `v` to object `id`.
- `Heaps`: the heap, as a map from address to object. Each object carries its
  value and its reference count (`use_count`). A count of 0 means the caller
  allocated the object with `new` and no handle has adopted it yet. `New`,
  `Retain` and `Release` are `new T(x)`, a handle copy and a handle
  destruction. The allocator hands out increasing addresses.
- `Ownership`: a world is the sequence of every container alive at one moment.
  `Accounted(h, w)` says each object's count equals the number of handles to it
  in the world. `Transfers(h, v, h', v')` is the promise every handle-changing
  operation makes: counts move exactly with the container's handles, objects
  keep their values, new objects get unused addresses, and an object whose
  count reaches 0 is freed. `AccountedAfterTransfer` proves that any such
  operation keeps the world accounted.
- `SharedPtrVector`: the operations. `size()` is `Size`, the slot count.
- `Rendering`: the free function `to_string`.
- `Lifecycle`: properties that relate several operations.

The element type's `operator<<` is the parameter `render: T -> string`.

## Model

| member | source | states |
|---|---|---|
| SharedPtrVector.SizeCountsSlots | shared_ptr_vector.h:451-455 | `size()` is the number of null slots plus the number of handles that own an object, so no object has more handles in the container than `size()` |
| SharedPtrVector.IsEmpty | shared_ptr_vector.h:513-521 | `empty()` holds exactly when `size()` is 0 |
| SharedPtrVector.At | shared_ptr_vector.h:583-615 | `at(n)` returns slot `n` exactly when `n < size()`; otherwise it reports `out_of_range`, and the container is never changed |
| SharedPtrVector.Front | shared_ptr_vector.h:617-635 | `front()` on a non-empty container is what `at(0)` returns |
| SharedPtrVector.Back | shared_ptr_vector.h:637-655 | `back()` on a non-empty container is what `at(size()-1)` returns |
| SharedPtrVector.Default | shared_ptr_vector.h:70-74 | the default constructor gives an empty container that owns no object |
| SharedPtrVector.Sized | shared_ptr_vector.h:85-97 | `shared_ptr_vector(n)` has size `n`, every slot's pointer is null, and it owns no object |
| SharedPtrVector.SizedAlias | shared_ptr_vector.h:99-111 | `shared_ptr_vector(n, p)` has size `n` and every slot holds `p`. For `n > 0` the object's count is `n` and its value is unchanged. For `n == 0` the temporary handle was the only owner, so `p` is freed. No other object is touched, and counts follow handles |
| SharedPtrVector.Copy | shared_ptr_vector.h:915 | the implicit copy constructor copies the member vector. The copy has the same size and the same pointer at every index. Each object gains one owner per slot that refers to it, objects the container does not refer to are untouched, and no object is copied or created |
| SharedPtrVector.CopyAssign | shared_ptr_vector.h:915 | the implicit copy assignment leaves the target with the source's pointers at every index. Every object the source holds survives, even one the target held too. An object neither container refers to is untouched, including one allocated but not yet adopted. Counts follow handles |
| SharedPtrVector.Destroy | shared_ptr_vector.h:207-209 | the destructor releases every slot. Each object loses one owner per slot. An object is freed exactly when this container held all of its owners. Objects the container does not refer to are untouched |
| SharedPtrVector.PushBackPtr | shared_ptr_vector.h:687-697 | `push_back(p)` on an unowned or null `p` adds one slot and keeps the old slots. `back()` holds `p`, `p`'s count becomes 1 and its value is kept. No other object changes |
| SharedPtrVector.PushBackValue | shared_ptr_vector.h:699-704 | `push_back(x)` adds one slot and keeps the old slots. The new slot refers to a freshly allocated object with value `x` and count 1. Every existing object is unchanged |
| SharedPtrVector.AssignAt | shared_ptr_vector.h:583-598 | assigning a handle through the writable reference `at(n)` returns (or adopting a pointer with `reset`) replaces slot `n` only, and only when `n < size()`; otherwise it reports `out_of_range` and changes nothing. The new handle's object survives with its value. The old handle's object loses one owner and is freed when that was its last. No other object is touched, and counts follow handles |
| SharedPtrVector.PopBack | shared_ptr_vector.h:713-726 | `pop_back()` on a non-empty container removes only the last slot. That slot's object loses one owner and is freed exactly when it had one. No other object changes |
| Rendering.ToString | shared_ptr_vector.h:1011-1025 | `to_string` on a fully occupied container is `"[ "`, then each element's rendering followed by a space, then `"]"`. An empty container gives `"[ ]"` |
| Rendering.TokensFrame | shared_ptr_vector.h:1018-1022 | the text depends only on the values of the objects the slots refer to, not on counts or other objects |
| Rendering.RenderPushBackValue | shared_ptr_vector.h:699-704 | after `push_back(x)`, the text is the old element tokens, then `x`'s token, then `" ]"` |
| Rendering.RenderPushBackPtr | shared_ptr_vector.h:687-697 | after `push_back(p)`, the text is the old element tokens, then the token of `*p`, then `" ]"` |
| Rendering.RenderSizedAlias | shared_ptr_vector.h:108-111 | `shared_ptr_vector(n, p)` renders as `n` copies of `*p`'s token between the brackets |
| Ownership.AccountedAfterTransfer | shared_ptr_vector.h:44 | any operation on one container that moves counts with its handles keeps every object's count equal to the number of handles to it across all containers |
| Ownership.TransfersTrans | shared_ptr_vector.h:44 | two such operations in a row again move counts with handles, keep values, and free what reaches 0 |
| Ownership.AccountedOwned | shared_ptr_vector.h:44 | in an accounted world, every handle of every container points at a live object that owns at least that many counts |
| Ownership.AccountedClose | shared_ptr_vector.h:207-209 | an emptied container leaves the world without changing any count |
| Ownership.AccountedNew | ut.cpp:1010-1012 | allocating an object nothing owns yet keeps the world accounted |
| Lifecycle.SizedKeepsAccounting | shared_ptr_vector.h:93-97 | a new `shared_ptr_vector(n)` joins an accounted world and keeps it accounted |
| Lifecycle.SizedAliasKeepsAccounting | shared_ptr_vector.h:108-111 | a new `shared_ptr_vector(n, p)` joins an accounted world and keeps it accounted |
| Lifecycle.CopyKeepsAccounting | shared_ptr_vector.h:915 | a copy of any container joins an accounted world and keeps it accounted |
| Lifecycle.CopyAssignKeepsAccounting | shared_ptr_vector.h:915 | assigning one container of the world to another keeps it accounted |
| Lifecycle.PushBackPtrKeepsAccounting | shared_ptr_vector.h:687-697 | `push_back(p)` on any container keeps the world accounted |
| Lifecycle.PushBackValueKeepsAccounting | shared_ptr_vector.h:699-704 | `push_back(x)` on any container keeps the world accounted |
| Lifecycle.PopBackKeepsAccounting | shared_ptr_vector.h:722-726 | in an accounted world, `pop_back()` on a non-empty container can always release its last handle, and the world stays accounted |
| Lifecycle.AssignAtKeepsAccounting | shared_ptr_vector.h:594-598 | assigning any live or adoptable handle to a slot of any container keeps the world accounted |
| Lifecycle.DestroyKeepsAccounting | shared_ptr_vector.h:207-209 | destroying any container removes it from the world, and the world stays accounted |
| Lifecycle.DestroySoleOwner | shared_ptr_vector.h:207-209 | when one container holds every handle, destroying it frees every object it refers to and leaves all others as they were |
| Lifecycle.CopyThenDestroy | shared_ptr_vector.h:915 | copying a container and destroying the copy leaves the heap exactly as it was |
| Lifecycle.PushBackPtrThenPopBack | shared_ptr_vector.h:687-726 | `push_back(p)` then `pop_back()` restores the container and frees `p`, because its only owner is gone |
| Lifecycle.PushBackValueThenPopBack | shared_ptr_vector.h:699-726 | `push_back(x)` then `pop_back()` restores both the container and the set of live objects |
| Lifecycle.AtAfterPushBack | shared_ptr_vector.h:594-697 | after `push_back(p)`, `at(n)` is unchanged below the old size, gives the adopted handle at the old size, and is out of range beyond |
| Lifecycle.AtAfterPopBack | shared_ptr_vector.h:594-726 | after `pop_back()`, `at(n)` is unchanged below the new size and out of range from it on |
| Lifecycle.AtAfterAssign | shared_ptr_vector.h:583-598 | after `at(n) = s`, `at(n)` gives `s` and every other index answers as before |
| Slots.CountFill | shared_ptr_vector.h:108-111 | `n` copies of one handle count `n` shares of its object and none of any other |

## Left out

- Allocator parameters and the allocator-only constructor: these are
  allocator plumbing with no effect on contents.
- `length_error` for a count above `max_size()` is not modelled. The bound is
  implementation-defined, and counts are unbounded `nat`s here.
- `data()` is not modelled. It returns `shared_ptr*` as `T*` and cannot be
  instantiated.
- The deduction guide is not modelled. It names helpers that are never
  declared.
- `operator<<` is not modelled. It writes the same text as `to_string` to a
  stream.
- Everything inside `#if 0` is not modelled. That covers the explicit copy,
  move and range constructors, `assign`, iterators, `resize`, `capacity`,
  `reserve`, `operator[]`, `emplace`, `insert`, `erase`, `swap`, `clear`, `==`
  and `<`. Sort and the find family have no implementation in the header at
  all.
- Moving has no model of its own, because the class has none. It declares
  its own destructor (shared_ptr_vector.h:207-209), so no implicit move
  constructor or move assignment exists. A move goes through the implicit
  copy operations, which `SharedPtrVector.Copy` and
  `SharedPtrVector.CopyAssign` model. Every object gains one owner per slot,
  and the moved-from container keeps all its handles.
- SharedPtrVector.Destroy releases the handles from the back. `std::vector`
  may destroy its elements in another order; the heap that results is the
  same for every order, so the order is not modelled.
- SharedPtrVector.At returns a writable `shared_ptr&`. Plain assignment
  and `reset` through it are `SharedPtrVector.AssignAt`. Swapping the slot
  with a handle outside every container, or calling other `shared_ptr`
  members through the reference, is not modelled.
- SharedPtrVector.Front returns the same writable reference as `at(0)`. A
  write through it is `SharedPtrVector.AssignAt` at index 0. Swapping through
  it is not modelled, as for `at`.
- SharedPtrVector.Back returns the same writable reference as
  `at(size() - 1)`. A write through it is `SharedPtrVector.AssignAt` at that
  index. Swapping through it is not modelled, as for `at`.
- Memory itself, destructor side effects of `T` and thread-safety of the
  counts are not modelled. Freeing an object is its removal from the heap
  map.
- Rendering.ToString requires every slot to be occupied. The code
  dereferences each slot's pointer, so a null slot is undefined behaviour. A
  `"NULL"` token, as ut.cpp:1016 expects in `"[ 1 2 3 NULL ]"`, is never
  produced by this code.
- Preconditions that are model well-formedness rather than checks the code
  makes: `Owned` or `LiveRefs` on operations that release or copy handles.
  In C++ these hold automatically, and `Ownership.AccountedOwned` derives them
  from the reference-count invariant. Adopting a pointer that is already
  owned (`Adoptable`) is undefined behaviour in C++ and is excluded the same
  way.
