/** The allocator backends that a storage wraps: the system-heap backend
    `default_storage_impl` and any user backend type `T`, each seen as a value
    that hands out abstract addresses and takes them back. */
module Memory {

  /** An address handed out by `allocate`: an opaque token standing for `void*`. */
  type Block = nat

  /** What a backend remembers about a live block. The system heap remembers
      only the size (`::operator new(n)`); a user backend remembers size and
      alignment, and wants both back on `deallocate`. */
  datatype Layout = Sized(size: nat) | Aligned(size: nat, align: nat)

  /** The backend type `T`: the system heap, or a user type with its own
      static `T::id()` and `T::need_free()`. */
  datatype Kind = SystemHeap | Custom(typeId: bv64, free: bool)

  /** `default_storage_impl::id()`. */
  const DefaultId: bv64 := 0x3b88990852d58ae4

  /** `T::id()` of the backend type. */
  function Id(k: Kind): bv64
  {
    match k
    case SystemHeap => DefaultId
    case Custom(i, _) => i
  }

  /** `T::need_free()` of the backend type; `default_storage_impl` answers true. */
  function NeedFree(k: Kind): bool
  {
    match k
    case SystemHeap => true
    case Custom(_, f) => f
  }

  /** One backend object: its type, the blocks it has handed out and not taken
      back, the next address it will hand out, and the bytes it can still give. */
  datatype Backend = Backend(kind: Kind, live: map<Block, Layout>, next: Block, avail: nat)

  /** What `allocate` reports: an address, or the out-of-memory failure
      (`std::bad_alloc`) that is passed on to the caller. */
  datatype Outcome = Allocated(block: Block) | OutOfMemory

  /** Every live block lies below `next`, so `next` is an address never handed out. */
  ghost predicate Valid(b: Backend)
  {
    forall p :: p in b.live ==> p < b.next
  }

  /** A backend of type `k` that has handed out nothing and can give `avail`
      bytes: it takes nothing back, and its first allocation succeeds exactly
      when the request fits. */
  function Fresh(k: Kind, avail: nat): (b: Backend)
    ensures Valid(b) && b.kind == k && b.avail == avail
    ensures forall p, n, a :: !Accepts(b, p, n, a)
  {
    Backend(k, map[], 0, avail)
  }

  /** The layout a backend of type `k` records for `allocate(n, align)`.
      The system heap drops the alignment. */
  function Record(k: Kind, n: nat, align: nat): (l: Layout)
    ensures l.size == n
  {
    if k.SystemHeap? then Sized(n) else Aligned(n, align)
  }

  /** `allocate(n, align)` of the backend: a new block of `n` bytes, or
      out-of-memory, in which case the backend is left as it was. */
  function Allocate(b: Backend, n: nat, align: nat): (r: (Outcome, Backend))
    ensures r.1.kind == b.kind
    ensures r.0.OutOfMemory? <==> n > b.avail
    ensures r.0.OutOfMemory? ==> r.1 == b
    ensures r.0.Allocated? ==>
      && r.1.live == b.live[r.0.block := Record(b.kind, n, align)]
      && r.1.avail == b.avail - n
      && (Valid(b) ==> r.0.block !in b.live)
    ensures Valid(b) ==> Valid(r.1)
  {
    if n > b.avail then (OutOfMemory, b)
    else
      var p := b.next;
      (Allocated(p), b.(live := b.live[p := Record(b.kind, n, align)], next := p + 1, avail := b.avail - n))
  }

  /** What `deallocate(p, n, align)` demands of its caller: `p` came from
      `allocate` on this backend and is still live; a user backend also wants
      the size and alignment it was allocated with. The system heap ignores both. */
  predicate Accepts(b: Backend, p: Block, n: nat, align: nat)
  {
    p in b.live && (b.kind.Custom? ==> b.live[p] == Aligned(n, align))
  }

  /** `deallocate(p, n, align)`: the block is taken back and its bytes become
      available again. */
  function Deallocate(b: Backend, p: Block, n: nat, align: nat): (r: Backend)
    requires Accepts(b, p, n, align)
    ensures r.kind == b.kind && r.next == b.next
    ensures p !in r.live && r.live == b.live - {p}
    ensures r.avail == b.avail + b.live[p].size
    ensures Valid(b) ==> Valid(r)
  {
    b.(live := b.live - {p}, avail := b.avail + b.live[p].size)
  }

  /** `default_storage_impl::allocate` ignores its alignment argument. */
  lemma SystemHeapIgnoresAlign(b: Backend, n: nat, a1: nat, a2: nat)
    requires b.kind == SystemHeap
    ensures Allocate(b, n, a1) == Allocate(b, n, a2)
  {
  }

  /** `default_storage_impl::deallocate` ignores its size and alignment
      arguments: it accepts a live block whatever they are, and the result
      does not depend on them. */
  lemma SystemHeapIgnoresSize(b: Backend, p: Block, n1: nat, a1: nat, n2: nat, a2: nat)
    requires b.kind == SystemHeap && p in b.live
    ensures Accepts(b, p, n1, a1) && Accepts(b, p, n2, a2)
    ensures Deallocate(b, p, n1, a1) == Deallocate(b, p, n2, a2)
  {
  }

  /** A block that `allocate(n, align)` hands out is accepted back by
      `deallocate(p, n, align)`, and giving it back restores the live blocks
      and the available bytes. */
  lemma DeallocateUndoesAllocate(b: Backend, n: nat, align: nat)
    requires Valid(b)
    ensures Allocate(b, n, align).0.Allocated? ==>
      var (o, b') := Allocate(b, n, align);
      && Accepts(b', o.block, n, align)
      && Deallocate(b', o.block, n, align).live == b.live
      && Deallocate(b', o.block, n, align).avail == b.avail
  {
    var (o, b') := Allocate(b, n, align);
    if o.Allocated? {
      var p := o.block;
      assert p !in b.live;
      assert b'.live - {p} == b.live;
    }
  }

  /** Two blocks live at the same time are distinct: an address is never
      handed out again while it is live, so a second allocation differs from
      the first. */
  lemma AllocationsAreDistinct(b: Backend, n1: nat, a1: nat, n2: nat, a2: nat)
    requires Valid(b)
    ensures
      var (o1, b1) := Allocate(b, n1, a1);
      var (o2, b2) := Allocate(b1, n2, a2);
      o1.Allocated? && o2.Allocated? ==>
        o1.block != o2.block && o1.block in b2.live && o2.block in b2.live
  {
    var (o1, b1) := Allocate(b, n1, a1);
    if o1.Allocated? {
      assert o1.block in b1.live;
    }
  }
}
