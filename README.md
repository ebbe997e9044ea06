# storage_ptr: a reference-counted allocator handle

Boost.JSON hands every container a `storage_ptr`, a small handle to a
polymorphic allocator. A handle is either empty or points to a `storage`
object. An empty handle uses a process-wide default storage backed by the
system heap. `make_storage<T>(args...)` wraps any allocator type `T` in a
heap-allocated adapter, `counted_storage_impl<T>`. That adapter carries an
intrusive, non-atomic reference count `refs_`, and it is deleted when the
last handle lets go of it.

This project models `include/boost/json/impl/storage_ptr.hpp` in three modules:

- `Memory` (memory.dfy) covers the allocator backends as values:
  - `default_storage_impl` and any user type `T`, with their `id()` and
    `need_free()`;
  - a map of live blocks, with the bytes still available;
  - allocation, which hands out an address never in use, or reports
    out-of-memory;
  - deallocation, which takes back exactly a live block.
- `RefCount` (refcount.dfy) covers the bookkeeping of one storage as a value:
  - which handles hold it, its counter, and whether it still exists;
  - the three steps the handle performs on it: release, increment with a
    new holder, and move of a reference;
  - a proof that releasing all the holders of a counted storage, in any
    order, deletes it exactly once, at the last release.
- `StorageHandle` (storage_ptr.dfy) covers the objects themselves:
  - `Storage` is the `storage` base fields plus the embedded backend `t`,
    with two ghost fields: whether it still exists, and which handles point
    to it;
  - `StoragePtr` holds the nullable `p_`;
  - `Process` owns the one default storage;
  - the move and copy assignment operators, `get()` and `make_storage` are
    methods that change these objects in place.

  A valid storage has a backend that never hands out a live address
  again, and a counted one keeps exactly one reference per handle that
  points to it. The assignment operators preserve this, and each operator states the
  whole new state of both handles and of both targets.

`release()` is declared outside this file. It is modelled as follows. If the
handle is non-null and its target is counted, the count is decremented, and
the storage is deleted when the count reaches 0. Otherwise nothing happens.

Copy assignment increments the source's target whenever the source is
non-null, even when that target is uncounted (lines 113-114). Release never
decrements an uncounted storage. So copying a handle that points to an
uncounted storage into itself, or into a handle sharing that target, leaves
the count one higher. The count of an uncounted storage is never read, so
nothing is freed too early. Self-assignment leaves the count unchanged only
for counted storages. The model follows the code here, and
`StorageHandle.StoragePtr.CopyShared` states both cases.

## Model

| member | source | states |
|---|---|---|
| Memory.Allocate | include/boost/json/impl/storage_ptr.hpp:75-81 | out-of-memory exactly when the request exceeds the available bytes, and then the backend is unchanged; otherwise the new block is live with its layout, is distinct from every block already live, and its bytes are taken from the budget; the address invariant is kept |
| Memory.Deallocate | include/boost/json/impl/storage_ptr.hpp:83-90 | a live block is taken back: it is no longer live, and its bytes become available again; the address invariant is kept |
| Memory.SystemHeapIgnoresAlign | include/boost/json/impl/storage_ptr.hpp:75-81 | the system heap's allocate gives the same result for any alignment argument |
| Memory.SystemHeapIgnoresSize | include/boost/json/impl/storage_ptr.hpp:83-90 | the system heap's deallocate accepts a live block whatever size and alignment it is given, and its result does not depend on them |
| Memory.DeallocateUndoesAllocate | include/boost/json/impl/storage_ptr.hpp:75-90 | a block from allocate(n, align) is accepted by deallocate(p, n, align), and giving it back restores the live blocks and the available bytes |
| Memory.AllocationsAreDistinct | include/boost/json/impl/storage_ptr.hpp:75-81 | two successful allocations in a row return different addresses, both live |
| RefCount.DropIsExact | include/boost/json/impl/storage_ptr.hpp:102 | releasing a handle of a counted storage deletes it exactly when that handle was its last holder; otherwise it keeps one reference per remaining holder |
| RefCount.RetainIsExact | include/boost/json/impl/storage_ptr.hpp:113-116 | an increment together with one new holder keeps one reference per holder, one more than before |
| RefCount.TransferIsExact | include/boost/json/impl/storage_ptr.hpp:103-104 | passing a reference from one handle to another keeps one reference per holder and leaves the count unchanged |
| RefCount.ReleaseAllInAnyOrder | include/boost/json/impl/storage_ptr.hpp:102 | releasing all holders of a counted storage, in any order, leaves it alive after every release but the last, and deleted, with count 0 and no holders, after the last |
| StorageHandle.Storage.Counted | include/boost/json/impl/storage_ptr.hpp:32-39 | the adapter around backend t reports T::id() and T::need_free(), is counted, embeds t unchanged, and starts with one reference held by no handle yet |
| StorageHandle.Storage.Scoped | include/boost/json/impl/storage_ptr.hpp:127 | the storage around a well-formed default backend is uncounted and valid, and embeds its backend unchanged |
| StorageHandle.Storage.Allocate | include/boost/json/impl/storage_ptr.hpp:41-47 | the arguments go unchanged to the embedded backend, and its answer (address or out-of-memory) and new state are the adapter's; a block handed out was not live before and is live now, and a valid storage stays valid |
| StorageHandle.Storage.Deallocate | include/boost/json/impl/storage_ptr.hpp:49-56 | the arguments go unchanged to the embedded backend, which the adapter's new backend state then is; the block is no longer live, and a valid storage stays valid |
| StorageHandle.Process.constructor | include/boost/json/impl/storage_ptr.hpp:59-73 | the process is valid: its default instance is uncounted, with id 0x3b88990852d58ae4 and need_free true, is alive with a well-formed backend, and no handle points to it; that instance is a valid storage around a fresh system-heap backend |
| StorageHandle.StoragePtr.Empty | include/boost/json/impl/storage_ptr.hpp:128 | an empty handle has null p_ and is valid |
| StorageHandle.StoragePtr.Adopt | include/boost/json/impl/storage_ptr.hpp:135-137 | the handle from the factory takes over the storage's single reference without incrementing, and becomes its only holder |
| StorageHandle.StoragePtr.Release | include/boost/json/impl/storage_ptr.hpp:102 | the target's bookkeeping becomes exactly the release step: a counted target is decremented and deleted at 0; an uncounted one keeps its count; this handle stops holding it; its backend is untouched |
| StorageHandle.StoragePtr.ReleaseHeld | include/boost/json/impl/storage_ptr.hpp:115 | releasing a valid handle deletes its target exactly when it is counted and this was its last holder; otherwise the target stays valid for the holders that remain |
| StorageHandle.StoragePtr.CopyAssign | include/boost/json/impl/storage_ptr.hpp:108-118 | both handles end valid and point to the source's old target. A target new to this handle gains one reference and this holder. The previous target is released, and stays valid if it survives. A target the two already shared stays alive with the same holders. Backends are untouched. |
| StorageHandle.StoragePtr.CopyShared | include/boost/json/impl/storage_ptr.hpp:113-116 | copying between handles that already share their target (self-assignment included) leaves p_ and the holders unchanged, and never deletes the target; a counted target ends with its count unchanged, an uncounted one with one more |
| StorageHandle.StoragePtr.CopyOther | include/boost/json/impl/storage_ptr.hpp:113-116 | copying from a handle with another target adds one reference and this holder to that target; the previous target is released exactly, and stays valid if it survives |
| StorageHandle.StoragePtr.MoveAssign | include/boost/json/impl/storage_ptr.hpp:97-106 | this handle takes the source's old p_, and the source becomes null. The moved target's count is unchanged; only its holder changes from source to destination. Only the destination's previous target is released. A handle moved into itself ends up null. Both handles end valid. |
| StorageHandle.StoragePtr.MoveShared | include/boost/json/impl/storage_ptr.hpp:102-104 | when the two handles shared a target, it loses this handle's reference and keeps the source's, now held here, and stays alive; a self-move releases the target and leaves the handle null |
| StorageHandle.StoragePtr.MoveOther | include/boost/json/impl/storage_ptr.hpp:102-104 | moving from a handle with another target leaves that target's count unchanged, and moves its holder from the source to this handle; this handle's previous target is released exactly |
| StorageHandle.StoragePtr.TakeFrom | include/boost/json/impl/storage_ptr.hpp:103-104 | p_ takes the source's p_ and the source becomes null; the source's reference passes to this handle with the count unchanged |
| StorageHandle.StoragePtr.Get | include/boost/json/impl/storage_ptr.hpp:120-129 | never null: the handle's target when p_ is non-null, and otherwise the process's one default storage, the same object on every call, which is uncounted, reports the default id and need_free true, is alive and has a well-formed backend; a valid non-empty handle never resolves to the default storage |
| StorageHandle.MakeStorage | include/boost/json/impl/storage_ptr.hpp:131-138 | a new valid handle holding the single reference of a freshly allocated counted adapter around the given well-formed backend; being fresh, that adapter is distinct from every existing storage, the default instance included |
| StorageHandle.SharedPoolLifetime | include/boost/json/impl/storage_ptr.hpp:97-138 | a pool made by the factory is not the default storage. After a copy and a move into two handles, it survives the first handle's release with one reference, and is deleted by the second's release with none. |
| StorageHandle.DefaultRoundTrip | include/boost/json/impl/storage_ptr.hpp:75-128 | an empty handle allocates 32 bytes from the default storage and gives them back: the default heap's live blocks are as before, and the process stays valid |
| StorageHandle.PoolAllocationsAreDistinct | include/boost/json/impl/storage_ptr.hpp:41-47 | two allocations through the adapter a new handle owns return different addresses, and the first stays live in its backend |

## Left out

- The real memory behaviour of `::operator new` and `::operator delete`, including alignment and the bytes themselves, is left out. Both are calls into the C++ runtime. A backend is modelled as bookkeeping: addresses are abstract tokens, and out-of-memory (`std::bad_alloc`) is an explicit budget of available bytes.
- StorageHandle.MakeStorage: the factory always succeeds. Its `new` (line 135) and the constructor of `T` (line 37) can throw `std::bad_alloc`, and then no handle is built and nothing leaks. That failure path is not modelled, because allocation of the adapter object itself is a call into the C++ runtime.
- StorageHandle.Storage.Counted, StorageHandle.Storage.Scoped, StorageHandle.StoragePtr.Adopt, StorageHandle.MakeStorage: these require a well-formed backend, one whose live blocks all lie below its next address. A fresh backend is well-formed, and a real backend never hands out a live address twice.
- User allocator types `T` are modelled by one generic backend that checks the size and alignment on deallocate. A real `T` can do anything in its own `allocate` and `deallocate`.
- `scoped_storage` internals, the `require_constant_initialization` attribute, and the thread-safe lazy initialization of the static default instance are left out. The default instance is one storage that exists before any handle uses it, owned by a `Process` object that `Get` receives. `Get` requires that process to be valid. Its constructor establishes this. Allocating from and deallocating to the default storage keep it, and no handle operation touches that storage.
- `std::forward` of the constructor arguments and `constexpr` are left out. The arguments are modelled as the backend value they build.
- Concurrent use of handles is left out. `refs_` is a plain non-atomic counter, so concurrent use is undefined behaviour in the source.
- The `storage` base class, the copy and move constructors, and the destructor of `storage_ptr` are declared outside this file, and are not part of this model. Only the `release()` they rely on is modelled, as described above. `StorageHandle.StoragePtr.ReleaseHeld` stands for the destructor in the client scenario.
- The deletion of the adapter is modelled by its ghost `alive` flag becoming false. Freeing its memory, and destroying `t` together with it, are left out.
- The call sites in `bench/bench.cpp` are left out. They consist of file I/O, timing, floating-point arithmetic and calls into other parsers.
