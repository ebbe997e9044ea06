/** The reference-counted allocator handle `storage_ptr`, the storage objects
    it points to (the counted adapter `counted_storage_impl<T>` and the
    process-wide default instance), and the factory `make_storage`. */
module StorageHandle {
  import Memory
  import opened RefCount

  /** A storage object: the `storage` base fields and the embedded backend `t`.
      `alive` is false once the object has been deleted; `holders` is the set
      of handles whose `p_` points here (both ghost: C++ keeps neither). */
  class Storage {
    const id: bv64
    const needFree: bool
    const counted: bool
    var refs: nat
    var t: Memory.Backend
    ghost var alive: bool
    ghost var holders: set<StoragePtr>

    /** The reference-count bookkeeping of this storage as a value. */
    ghost function Snap(): Share<StoragePtr>
      reads this
    {
      Share(holders, refs, alive)
    }

    /** The storage exists, its backend never hands out a live address
        again, every holder points here, and a counted storage has exactly
        one reference per holder. */
    ghost predicate Valid()
      reads this, holders
    {
      && alive && refs >= 1 && Memory.Valid(t)
      && (forall h :: h in holders ==> h.p == this)
      && (counted ==> refs == |holders|)
    }

    /** `counted_storage_impl<T>(args...)`: the base takes `T::id()`,
        `T::need_free()` and counted = true; the backend `t` is the one the
        arguments build, unchanged; the count starts at 1, held by no handle yet. */
    constructor Counted(t: Memory.Backend)
      requires Memory.Valid(t)
      ensures id == Memory.Id(t.kind) && needFree == Memory.NeedFree(t.kind) && counted
      ensures this.t == t && refs == 1 && alive && holders == {}
    {
      id, needFree, counted := Memory.Id(t.kind), Memory.NeedFree(t.kind), true;
      this.t := t;
      refs := 1;
      alive := true;
      holders := {};
    }

    /** The uncounted storage around backend `t` that the default instance is
        (`scoped_storage<default_storage_impl>`): counted = false. */
    constructor Scoped(t: Memory.Backend)
      requires Memory.Valid(t)
      ensures id == Memory.Id(t.kind) && needFree == Memory.NeedFree(t.kind) && !counted
      ensures this.t == t && Valid() && holders == {}
    {
      id, needFree, counted := Memory.Id(t.kind), Memory.NeedFree(t.kind), false;
      this.t := t;
      refs := 1;
      alive := true;
      holders := {};
    }

    /** `allocate(n, align)`: both arguments go to the backend unchanged, and
        so does its answer, an address or out-of-memory, back to the caller. */
    method Allocate(n: nat, align: nat) returns (r: Memory.Outcome)
      requires alive
      modifies this`t
      ensures (r, t) == Memory.Allocate(old(t), n, align)
      ensures Memory.Valid(old(t)) && r.Allocated? ==> r.block !in old(t).live && r.block in t.live
      ensures old(Valid()) ==> Valid()
    {
      var step := Memory.Allocate(t, n, align);
      r, t := step.0, step.1;
    }

    /** `deallocate(p, n, align)`: all three arguments go to the backend unchanged. */
    method Deallocate(p: Memory.Block, n: nat, align: nat)
      requires alive && Memory.Accepts(t, p, n, align)
      modifies this`t
      ensures t == Memory.Deallocate(old(t), p, n, align)
      ensures p !in t.live
      ensures old(Valid()) ==> Valid()
    {
      t := Memory.Deallocate(t, p, n, align);
    }
  }

  /** The process: it owns the one default storage, created before any handle
      asks for it and never destroyed. */
  class Process {
    const defaultStorage: Storage

    /** The default storage is the uncounted one around the system heap,
        `scoped_storage<default_storage_impl>`: it is never destroyed, its
        backend never hands out a live address again, and no handle points
        to it (an empty handle reaches it through `get()` instead). */
    ghost predicate Valid()
      reads defaultStorage
    {
      && !defaultStorage.counted
      && defaultStorage.id == Memory.DefaultId && defaultStorage.needFree
      && defaultStorage.alive && Memory.Valid(defaultStorage.t)
      && defaultStorage.holders == {}
    }

    constructor (heapBytes: nat)
      ensures Valid() && fresh(defaultStorage) && defaultStorage.Valid()
      ensures defaultStorage.t == Memory.Fresh(Memory.SystemHeap, heapBytes)
    {
      defaultStorage := new Storage.Scoped(Memory.Fresh(Memory.SystemHeap, heapBytes));
    }
  }

  /** The handle `storage_ptr`: null stands for the default storage. */
  class StoragePtr {
    var p: Storage?

    /** The storage this handle points to, if any. */
    ghost function Target(): set<Storage>
      reads this
    {
      if p != null then {p} else {}
    }

    /** A non-null handle is one of the holders of a valid storage. */
    ghost predicate Valid()
      reads this, p, if p != null then p.holders else {}
    {
      p != null ==> this in p.holders && p.Valid()
    }

    /** The empty handle: it uses the default storage and allocates nothing. */
    constructor Empty()
      ensures p == null && Valid()
    {
      p := null;
    }

    /** `storage_ptr(storage*)` from the factory: the handle takes over the
        single reference the new storage starts with, without incrementing. */
    constructor Adopt(s: Storage)
      requires s.counted && s.alive && s.refs == 1 && s.holders == {} && Memory.Valid(s.t)
      modifies s
      ensures p == s && Valid() && s.holders == {this}
      ensures s.refs == 1 && s.t == old(s.t)
    {
      p := s;
      new;
      s.holders := {this};
    }

    /** `release()`: a counted target gives up one reference and is deleted
        when the count reaches 0; an uncounted target is left as it is. In
        both cases this handle no longer holds it. The field `p_` itself is
        not touched. */
    method Release()
      requires p != null ==> p.alive && (p.counted ==> p.refs >= 1)
      modifies p
      ensures p != null ==> p.Snap() == Drop(old(p.Snap()), this, p.counted) && p.t == old(p.t)
    {
      if p != null {
        if p.counted {
          p.refs := p.refs - 1;
          if p.refs == 0 {
            p.alive := false;
          }
        }
        p.holders := p.holders - {this};
      }
    }

    /** `release()` of a handle that holds its target, as in the assignment
        operators and in `~storage_ptr`: the target is deleted exactly when it
        is counted and this handle was its last holder; otherwise it stays
        valid for the holders that remain. */
    method ReleaseHeld()
      requires Valid()
      modifies p
      ensures p != null ==> p.Snap() == Drop(old(p.Snap()), this, p.counted) && p.t == old(p.t)
      ensures p != null ==> (p.alive <==> !p.counted || old(p.holders) != {this})
      ensures p != null && p.alive ==> p.Valid()
    {
      if p != null && p.counted {
        DropIsExact(p.Snap(), this);
      }
      Release();
    }

    /** Copy assignment `*this = other`: the increment of the source's target
        comes before the release of this handle's target, so a storage the two
        already share never sees its count fall to 0. Afterwards both handles
        point to the source's target; a target new to this handle has gained
        one reference and this holder, the previous target has been released. */
    method CopyAssign(other: StoragePtr)
      requires Valid() && other.Valid()
      modifies this, p, other.p
      ensures Valid() && other.Valid()
      ensures p == old(other.p) && other.p == old(other.p)
      ensures p != null && p != old(p) ==> p.Snap() == Retain(old(other.p.Snap()), this)
      ensures old(p) != null && old(p) != p ==> old(p).Snap() == Drop(old(p.Snap()), this, old(p).counted)
      ensures old(p) != null && old(p) != p && old(p).alive ==> old(p).Valid()
      ensures p != null && p == old(p) ==>
        && p.alive && p.holders == old(p.holders)
        && p.refs == old(p.refs) + (if p.counted then 0 else 1)
      ensures p != null ==> p.t == old(other.p.t)
      ensures old(p) != null ==> old(p).t == old(p.t)
    {
      if other.p == p {
        CopyShared(other);
      } else {
        CopyOther(other);
      }
    }

    /** Copy assignment between handles that already share their target
        (self-assignment included): the target keeps its holders; a counted
        one gets its count back, an uncounted one keeps the extra increment. */
    method CopyShared(other: StoragePtr)
      requires Valid() && other.Valid() && p == other.p
      modifies this, p
      ensures Valid() && other.Valid() && p == old(p) && other.p == p
      ensures p != null ==>
        && p.alive && p.holders == old(p.holders) && p.t == old(p.t)
        && p.refs == old(p.refs) + (if p.counted then 0 else 1)
    {
      if p != null {
        ghost var before := p.Snap();
        p.refs := p.refs + 1;
        Release();
        p := other.p;
        p.holders := p.holders + {this};
        assert p.holders == before.holders;
      }
    }

    /** Copy assignment from a handle with another target: that target gains
        one reference and this holder, this handle's previous target is
        released. */
    method CopyOther(other: StoragePtr)
      requires Valid() && other.Valid() && p != other.p
      modifies this, p, other.p
      ensures Valid() && other.Valid()
      ensures p == old(other.p) && other.p == old(other.p)
      ensures p != null ==> p.Snap() == Retain(old(other.p.Snap()), this) && p.t == old(other.p.t)
      ensures old(p) != null ==> old(p).Snap() == Drop(old(p.Snap()), this, old(p).counted)
      ensures old(p) != null && old(p).alive ==> old(p).Valid()
      ensures old(p) != null ==> old(p).t == old(p.t)
    {
      ghost var dst, src := p, other.p;
      ghost var dstHolders := if dst != null then dst.holders else {};
      assert src != null ==> this !in src.holders;
      if other.p != null {
        other.p.refs := other.p.refs + 1;
      }
      ReleaseHeld();
      p := other.p;
      if p != null {
        p.holders := p.holders + {this};
        forall h | h in p.holders ensures h.p == p {
          if h != this {
            assert h in old(src.holders);
          }
        }
      }
      if dst != null && dst.alive {
        forall h | h in dst.holders ensures h.p == dst {
          assert h in dstHolders && h != this;
        }
      }
    }

    /** Move assignment `*this = std::move(other)`: this handle's target is
        released, the source's `p_` passes to this handle and the source
        becomes empty; the moved storage's count does not change. When the
        two handles shared a target, that target loses this handle's
        reference and keeps other's, now held by this handle. Assigning a
        handle to itself releases its target and leaves it empty. */
    method MoveAssign(other: StoragePtr)
      requires Valid() && other.Valid()
      modifies this, other, p, other.p
      ensures Valid() && other.Valid()
      ensures this != other ==> p == old(other.p) && other.p == null
      ensures this == other ==> p == null
      ensures this != other && p != null && p != old(p) ==>
        p.Snap() == Transfer(old(other.p.Snap()), other, this)
      ensures this != other && p != null && p == old(p) ==>
        p.alive && p.Snap() == Transfer(Drop(old(p.Snap()), this, p.counted), other, this)
      ensures old(p) != null && old(p) != p ==> old(p).Snap() == Drop(old(p.Snap()), this, old(p).counted)
      ensures old(p) != null && old(p) != p && old(p).alive ==> old(p).Valid()
      ensures p != null ==> p.t == old(other.p.t)
      ensures old(p) != null ==> old(p).t == old(p.t)
    {
      if other.p == p {
        MoveShared(other);
      } else {
        MoveOther(other);
      }
    }

    /** Move assignment between handles that share their target, or of a
        handle to itself. Between two handles the target loses this handle's
        reference and keeps other's, now held here; a handle moved into
        itself releases its target and ends up empty. */
    method MoveShared(other: StoragePtr)
      requires Valid() && other.Valid() && p == other.p
      modifies this, other, p
      ensures Valid() && other.Valid()
      ensures this != other ==> p == old(p) && other.p == null
      ensures this == other ==> p == null
      ensures this != other && p != null ==>
        p.alive && p.Snap() == Transfer(Drop(old(p.Snap()), this, p.counted), other, this)
      ensures this == other && old(p) != null ==>
        old(p).Snap() == Drop(old(p.Snap()), this, old(p).counted)
      ensures this == other && old(p) != null && old(p).alive ==> old(p).Valid()
      ensures old(p) != null ==> old(p).t == old(p.t)
    {
      if this != other && p != null && p.counted {
        DropIsExact(p.Snap(), this);
        assert other in p.holders - {this};
      }
      ReleaseHeld();
      TakeFrom(other);
    }

    /** Move assignment from a handle with another target: this handle's
        target is released, and the source's reference passes to this handle
        with no change to its count. */
    method MoveOther(other: StoragePtr)
      requires Valid() && other.Valid() && p != other.p
      modifies this, other, p, other.p
      ensures Valid() && other.Valid()
      ensures p == old(other.p) && other.p == null
      ensures p != null ==> p.Snap() == Transfer(old(other.p.Snap()), other, this) && p.t == old(other.p.t)
      ensures old(p) != null ==> old(p).Snap() == Drop(old(p.Snap()), this, old(p).counted)
      ensures old(p) != null && old(p).alive ==> old(p).Valid()
      ensures old(p) != null ==> old(p).t == old(p.t)
    {
      ghost var dst, src := p, other.p;
      assert src != null ==> this !in src.holders;
      assert dst != null ==> other !in dst.holders;
      ReleaseHeld();
      ghost var dstHolders := if dst != null then dst.holders else {};
      TakeFrom(other);
      if dst != null && dst.alive {
        assert dst.Valid() by {
          forall h | h in dst.holders ensures h.p == dst {
            assert h in dstHolders && h != this && h != other;
          }
        }
      }
    }

    /** The second half of move assignment, after the release:
        `p_ = other.p_; other.p_ = nullptr;`. The reference other held passes
        to this handle. */
    method TakeFrom(other: StoragePtr)
      requires this != other ==> other.Valid()
      requires this != other && other.p != null ==> this !in other.p.holders
      modifies this, other, if this != other then other.Target() else {}
      ensures this == other ==> p == null
      ensures this != other ==> p == old(other.p) && other.p == null && Valid() && other.Valid()
      ensures this != other && p != null ==> p.Snap() == Transfer(old(other.p.Snap()), other, this)
      ensures this != other && p != null ==> p.t == old(other.p.t)
    {
      ghost var src := other.p;
      p := other.p;
      other.p := null;
      if this != other && p != null {
        if p.counted {
          TransferIsExact(old(src.Snap()), other, this);
        }
        p.holders := p.holders - {other} + {this};
        assert p.Valid() by {
          forall h | h in p.holders ensures h.p == p {
            if h != this {
              assert h in old(src.holders) && h != other;
            }
          }
        }
      }
    }

    /** `get()`: never null; this handle's target, or else the process's one
        default storage, the same object on every call. */
    method Get(proc: Process) returns (s: Storage)
      requires proc.Valid()
      ensures p != null ==> s == p
      ensures p == null ==> s == proc.defaultStorage
      ensures p == null ==> !s.counted && s.id == Memory.DefaultId && s.needFree
      ensures p == null ==> s.alive && Memory.Valid(s.t)
      ensures Valid() && p != null ==> s != proc.defaultStorage
    {
      s := if p != null then p else proc.defaultStorage;
    }
  }

  /** `make_storage<T>(args...)`: a new counted adapter around the backend the
      arguments build, owned by a new handle that holds its single reference.
      Being fresh, it is distinct from every storage that existed before,
      the default storage included. */
  method MakeStorage(t: Memory.Backend) returns (sp: StoragePtr)
    requires Memory.Valid(t)
    ensures fresh(sp) && sp.p != null && fresh(sp.p)
    ensures sp.Valid() && sp.p.holders == {sp} && sp.p.refs == 1
    ensures sp.p.counted && sp.p.id == Memory.Id(t.kind) && sp.p.needFree == Memory.NeedFree(t.kind)
    ensures sp.p.t == t
  {
    var s := new Storage.Counted(t);
    sp := new StoragePtr.Adopt(s);
  }

  /** A pool shared by two nodes: the factory's handle is copied into one
      node and moved into the other. The pool is not the default storage, and
      an empty handle resolves to the default one. After the first node lets
      go the pool still has one reference; after the second it has none and
      is deleted. */
  method SharedPoolLifetime(proc: Process, t: Memory.Backend)
    returns (poolIsNotDefault: bool, emptyIsDefault: bool, refsAfterFirst: nat, refsAfterSecond: nat)
    requires proc.Valid() && Memory.Valid(t)
    ensures poolIsNotDefault && emptyIsDefault
    ensures refsAfterFirst == 1 && refsAfterSecond == 0
  {
    var sp := MakeStorage(t);
    var pool := sp.p;
    var used := sp.Get(proc);
    poolIsNotDefault := used != proc.defaultStorage;
    var node1 := new StoragePtr.Empty();
    var d := node1.Get(proc);
    emptyIsDefault := d == proc.defaultStorage;
    node1.CopyAssign(sp);
    var node2 := new StoragePtr.Empty();
    node2.MoveAssign(sp);
    assert sp.p == null && node1.p == pool && node2.p == pool;
    node1.ReleaseHeld();
    assert pool.alive;
    refsAfterFirst := pool.refs;
    node2.ReleaseHeld();
    assert !pool.alive;
    refsAfterSecond := pool.refs;
  }

  /** Two allocations through the storage a fresh handle owns: the second
      block is a different address from the first, which is still live, and
      the handle stays valid throughout. */
  method PoolAllocationsAreDistinct(t: Memory.Backend, n1: nat, a1: nat, n2: nat, a2: nat)
    returns (distinct: bool, firstStillLive: bool)
    requires Memory.Valid(t)
    ensures distinct && firstStillLive
  {
    var sp := MakeStorage(t);
    var first := sp.p.Allocate(n1, a1);
    var second := sp.p.Allocate(n2, a2);
    assert sp.Valid();
    distinct := first.Allocated? && second.Allocated? ==> first.block != second.block;
    firstStillLive := first.Allocated? ==> first.block in sp.p.t.live;
  }

  /** An empty handle allocates from the default storage and gives the
      block back: the default heap's live blocks are as before, and the
      process stays valid for the next caller. */
  method DefaultRoundTrip(proc: Process) returns (gotBlock: bool, restored: bool)
    requires proc.Valid()
    modifies proc.defaultStorage
    ensures proc.Valid()
    ensures gotBlock ==> restored
  {
    var h := new StoragePtr.Empty();
    var s := h.Get(proc);
    var before := s.t;
    var r := s.Allocate(32, 8);
    gotBlock := r.Allocated?;
    restored := false;
    if r.Allocated? {
      Memory.DeallocateUndoesAllocate(before, 32, 8);
      s.Deallocate(r.block, 32, 8);
      restored := s.t.live == before.live;
    }
  }
}
