/** The free-list engine of kernel/src/c/mm/freelist.c.

    A descriptor `{base, ciel, head, object_size}` sits over a range of
    fixed-size blocks. The first word of every free block holds the address
    of the next free block, so the free list lives inside the memory it
    manages. The model follows the code as written: an initialised chain ends
    by linking to `ciel` (not to NULL), popping has no exhaustion check, and
    linking two descriptors does not splice their chains. */
module Freelist {
  import opened Memory

  /** The value of a `struct ARC_FreelistMeta`. */
  datatype Desc = Desc(base: nat, ciel: nat, head: nat, objectSize: nat)

  /** A `struct ARC_FreelistMeta` whose fields the engine updates in place. */
  class FreelistMeta {
    var base: nat
    var ciel: nat
    var head: nat
    var objectSize: nat

    /** A descriptor as a zero initialiser (`= { 0 }`) leaves it. */
    constructor ()
      ensures View() == Desc(0, 0, 0, 0)
    {
      base, ciel, head, objectSize := 0, 0, 0, 0;
    }

    function View(): Desc
      reads this
    {
      Desc(base, ciel, head, objectSize)
    }
  }

  /** The number of blocks `Arc_InitializeFreelist` threads: the blocks
      `base + k * size` that start below `ciel`. */
  function SlotCount(base: nat, ciel: nat, size: nat): (n: nat)
    requires base < ciel ==> size > 0
    ensures ciel <= SlotAddr(base, size, n)
    ensures n > 0 ==> SlotAddr(base, size, n - 1) < ciel
    decreases ciel - base
  {
    if base >= ciel then 0
    else
      var rest := SlotCount(base + size, ciel, size);
      assert SlotAddr(base, size, rest + 1) == SlotAddr(base + size, size, rest);
      assert rest > 0 ==> SlotAddr(base, size, rest) == SlotAddr(base + size, size, rest - 1);
      rest + 1
  }

  /** A range whose length is a whole number of blocks is covered exactly:
      the last block links to `ciel` itself. */
  lemma {:induction false} SlotCountExact(base: nat, ciel: nat, size: nat, n: nat)
    requires size > 0 && ciel == SlotAddr(base, size, n)
    ensures SlotCount(base, ciel, size) == n
    decreases n
  {
    if n > 0 {
      assert ciel == SlotAddr(base + size, size, n - 1);
      SlotCountExact(base + size, ciel, size, n - 1);
    }
  }

  /** `Arc_ListFree` accepts an address that is not NULL and lies in
      `[base, ciel]` (the ceiling itself included). */
  predicate Accepts(d: Desc, address: nat)
  {
    address != NULL && d.base <= address <= d.ciel
  }

  /** Initialise `meta` over `[base, ciel)` (`Arc_InitializeFreelist`): every
      block starting below `ciel` gets the address of the block after it. */
  method InitializeFreelist(base: nat, ciel: nat, objectSize: nat, meta: FreelistMeta, ram: Ram) returns (r: int)
    requires base < ciel ==> objectSize > 0
    modifies meta, ram
    ensures r == 0
    ensures meta.View() == Desc(base, ciel, base, objectSize)
    ensures ram.words == ThreadSlots(old(ram.words), base, objectSize, SlotCount(base, ciel, objectSize))
  {
    meta.base := base;
    meta.head := base;
    meta.ciel := ciel;
    meta.objectSize := objectSize;

    var current := base;
    ghost var k: nat := 0;
    while current < ciel
      invariant current == SlotAddr(base, objectSize, k)
      invariant current < ciel ==> objectSize > 0
      invariant k + SlotCount(current, ciel, objectSize) == SlotCount(base, ciel, objectSize)
      invariant ram.words == ThreadSlots(old(ram.words), base, objectSize, k)
      modifies ram
      decreases ciel - current
    {
      var next := current + objectSize;
      assert next == SlotAddr(base, objectSize, k + 1) by {
        assert (k + 1) * objectSize == k * objectSize + objectSize;
      }
      assert SlotCount(current, ciel, objectSize) == SlotCount(next, ciel, objectSize) + 1;
      ram.words := ram.words[current := next];
      current := next;
      k := k + 1;
    }
    r := 0;
  }

  /** A freshly initialised descriptor over a range of `n` whole blocks holds
      the chain `base, base + size, ..., base + (n - 1) * size`, which links
      to `ciel` and not to NULL. */
  lemma FreshChain(mem: map<nat, nat>, base: nat, size: nat, n: nat)
    requires size > 0
    ensures var ciel := SlotAddr(base, size, n);
      Linked(ThreadSlots(mem, base, size, SlotCount(base, ciel, size)), Slots(base, size, n), ciel)
  {
    SlotCountExact(base, SlotAddr(base, size, n), size, n);
    ThreadSlotsChain(mem, base, size, n);
  }

  /** Pop the head of the list (`Arc_ListAlloc`). There is no exhaustion
      check: the head must be a readable, non-NULL block. */
  method ListAlloc(meta: FreelistMeta, ram: Ram) returns (address: nat)
    requires meta.head != NULL && meta.head in ram.words
    modifies meta
    ensures address == old(meta.head)
    ensures meta.View() == old(meta.View()).(head := ram.words[address])
  {
    address := meta.head;
    meta.head := ram.words[meta.head];
  }

  /** Push `address` (`Arc_ListFree`), unless it is NULL or outside
      `[base, ciel]`, in which case NULL is returned and nothing changes. */
  method ListFree(meta: FreelistMeta, ram: Ram, address: nat) returns (r: nat)
    modifies meta, ram
    ensures Accepts(old(meta.View()), address) ==>
      && r == address
      && meta.View() == old(meta.View()).(head := address)
      && ram.words == old(ram.words)[address := old(meta.head)]
    ensures !Accepts(old(meta.View()), address) ==>
      r == NULL && unchanged(meta, ram)
  {
    if address == NULL || address < meta.base || address > meta.ciel {
      return NULL;
    }
    ram.words := ram.words[address := meta.head];
    meta.head := address;
    r := address;
  }

  /** A pushed block is popped first: the free list is LIFO. */
  method FreeThenAlloc(meta: FreelistMeta, ram: Ram, address: nat) returns (again: nat)
    requires Accepts(meta.View(), address)
    modifies meta, ram
    ensures again == address
    ensures meta.View() == old(meta.View())
  {
    var freed := ListFree(meta, ram, address);
    again := ListAlloc(meta, ram);
  }

  function Max0(x: int): nat
  {
    if x < 0 then 0 else x
  }

  /** The blocks `address + i * size`, `lo <= i < hi`, that `d` accepts, in
      ascending order. */
  function AcceptedBlocks(d: Desc, address: nat, size: nat, lo: nat, hi: nat): (s: seq<nat>)
    requires size > 0
    ensures forall x :: x in s ==> Accepts(d, x) && SlotAddr(address, size, lo) <= x
    decreases hi - lo
  {
    if lo >= hi then []
    else
      var rest := AcceptedBlocks(d, address, size, lo + 1, hi);
      assert SlotAddr(address, size, lo) < SlotAddr(address, size, lo + 1);
      var b := SlotAddr(address, size, lo);
      if Accepts(d, b) then [b] + rest else rest
  }

  predicate Ascending(s: seq<nat>)
  {
    forall i, j :: 0 <= i < j < |s| ==> s[i] < s[j]
  }

  /** The accepted blocks are listed in strictly ascending order. */
  lemma {:induction false} AcceptedBlocksAscending(d: Desc, address: nat, size: nat, lo: nat, hi: nat)
    requires size > 0
    ensures Ascending(AcceptedBlocks(d, address, size, lo, hi))
    decreases hi - lo
  {
    if lo < hi {
      AcceptedBlocksAscending(d, address, size, lo + 1, hi);
      var rest := AcceptedBlocks(d, address, size, lo + 1, hi);
      var b := SlotAddr(address, size, lo);
      assert SlotAddr(address, size, lo + 1) == b + size;
      assert forall j :: 0 <= j < |rest| ==> b < rest[j] by {
        forall j | 0 <= j < |rest| ensures b < rest[j] {
          assert rest[j] in rest;
        }
      }
      var s := AcceptedBlocks(d, address, size, lo, hi);
      if Accepts(d, b) {
        assert s == [b] + rest;
        forall i, j | 0 <= i < j < |s| ensures s[i] < s[j] {
          assert s[j] == rest[j - 1];
          if i > 0 {
            assert s[i] == rest[i - 1];
          }
        }
      } else {
        assert s == rest;
      }
    }
  }

  /** When every block of the run is accepted, all of them are pushed. */
  lemma {:induction false} AllAccepted(d: Desc, address: nat, size: nat, lo: nat, hi: nat)
    requires size > 0 && lo <= hi
    requires address != NULL
    requires d.base <= address && SlotAddr(address, size, hi) <= d.ciel + size
    ensures AcceptedBlocks(d, address, size, lo, hi) == Slots(address, size, hi)[lo..]
    decreases hi - lo
  {
    if lo < hi {
      AllAccepted(d, address, size, lo + 1, hi);
      assert SlotAddr(address, size, lo) + size <= SlotAddr(address, size, hi) by {
        assert SlotAddr(address, size, lo + 1) == SlotAddr(address, size, lo) + size;
        if lo + 1 < hi {
          MulStrict(lo + 1, hi, size);
        }
      }
      assert Slots(address, size, hi)[lo..] == [SlotAddr(address, size, lo)] + Slots(address, size, hi)[lo + 1..];
    }
  }

  /** Free `objects` consecutive blocks from `address`, highest first
      (`Arc_ListContiguousFree`). Blocks that `Arc_ListFree` rejects are
      skipped; with blocks of positive size the accepted ones end up on the
      list in ascending order, in front of the old head. */
  method ListContiguousFree(meta: FreelistMeta, ram: Ram, address: nat, objects: int) returns (r: nat)
    modifies meta, ram
    ensures r == address
    ensures objects <= 0 ==> unchanged(meta, ram)
    ensures meta.base == old(meta.base) && meta.ciel == old(meta.ciel) && meta.objectSize == old(meta.objectSize)
    ensures meta.objectSize > 0 ==>
      PushedFront(old(ram.words), ram.words, AcceptedBlocks(old(meta.View()), address, meta.objectSize, 0, Max0(objects)),
                  old(meta.head), meta.head)
  {
    ghost var d := meta.View();
    var i := objects - 1;
    while i >= 0
      invariant objects > 0 ==> -1 <= i < objects
      invariant objects <= 0 ==> i == objects - 1
      invariant meta.View() == d.(head := meta.head)
      invariant objects <= 0 ==> unchanged(meta, ram)
      invariant meta.objectSize > 0 ==>
        PushedFront(old(ram.words), ram.words, AcceptedBlocks(d, address, meta.objectSize, Max0(i + 1), Max0(objects)),
                    d.head, meta.head)
    {
      ghost var wordsBefore := ram.words;
      ghost var headBefore := meta.head;
      var freed := ListFree(meta, ram, address + i * meta.objectSize);
      if meta.objectSize > 0 {
        PushStep(d, address, meta.objectSize, i, Max0(objects), old(ram.words), wordsBefore, headBefore, ram.words, meta.head);
      }
      i := i - 1;
    }
    r := address;
  }

  /** After pushing the blocks `pushed` onto a list whose head was `oldHead`,
      the list reads `pushed` and then continues into `oldHead`; no other word
      of memory has changed. */
  ghost predicate PushedFront(before: map<nat, nat>, after: map<nat, nat>, pushed: seq<nat>, oldHead: nat, head: nat)
  {
    && head == (if pushed == [] then oldHead else pushed[0])
    && Linked(after, pushed, oldHead)
    && (forall a :: a in before && a !in pushed ==> a in after && after[a] == before[a])
    && after.Keys == before.Keys + set x | x in pushed
  }

  /** One step of `ListContiguousFree`: pushing block `i` (if accepted) in
      front of the blocks `i + 1 ..` keeps the pushed blocks a chain. */
  lemma PushStep(d: Desc, address: nat, size: nat, i: nat, hi: nat, start: map<nat, nat>,
                 wordsBefore: map<nat, nat>, headBefore: nat, words: map<nat, nat>, head: nat)
    requires size > 0 && i < hi
    requires PushedFront(start, wordsBefore, AcceptedBlocks(d, address, size, i + 1, hi), d.head, headBefore)
    requires var b := SlotAddr(address, size, i);
      if Accepts(d, b) then words == wordsBefore[b := headBefore] && head == b
      else words == wordsBefore && head == headBefore
    ensures PushedFront(start, words, AcceptedBlocks(d, address, size, i, hi), d.head, head)
  {
    var before := AcceptedBlocks(d, address, size, i + 1, hi);
    var b := SlotAddr(address, size, i);
    assert SlotAddr(address, size, i + 1) == b + size;
    var after := AcceptedBlocks(d, address, size, i, hi);
    if Accepts(d, b) {
      assert after == [b] + before;
      assert b !in before;
      forall j | 0 <= j < |after|
        ensures after[j] in words && words[after[j]] == Succ(after, j, d.head)
      {
        if j > 0 {
          assert after[j] == before[j - 1];
          assert wordsBefore[before[j - 1]] == Succ(before, j - 1, d.head);
        }
      }
      assert (set x | x in after) == (set x | x in before) + {b};
    } else {
      assert after == before;
    }
  }

  /** Pop `objects` blocks and return the first one
      (`Arc_ListContiguousAlloc`). The source never assigns
      `last_allocation`, so its test for a gap between two pops never holds,
      `fails` stays 0 and the retry path is unreachable: the first popped
      block is returned whether or not the popped blocks are adjacent. */
  method ListContiguousAlloc(meta: FreelistMeta, ram: Ram, objects: int) returns (r: nat)
    requires Walkable(ram.words, meta.head, Max0(objects))
    modifies meta
    ensures objects <= 0 ==> r == NULL
    ensures objects > 0 ==> r == old(meta.head)
    ensures meta.View() == old(meta.View()).(head := Walk(ram.words, old(meta.head), Max0(objects)))
  {
    var toFreeHead: nat := NULL;
    var objectCount: int := 0;
    var fails := 0;
    var lastAllocation: nat := NULL;
    var base: nat := NULL;
    var firstAllocation: nat := NULL;

    while objectCount < objects
      invariant 0 <= objectCount <= Max0(objects)
      invariant Walkable(ram.words, old(meta.head), objectCount)
      invariant meta.View() == old(meta.View()).(head := Walk(ram.words, old(meta.head), objectCount))
      invariant Walkable(ram.words, meta.head, Max0(objects) - objectCount)
      invariant base == toFreeHead == firstAllocation == (if objectCount == 0 then NULL else old(meta.head))
    {
      WalkStep(ram.words, old(meta.head), objectCount, Max0(objects) - objectCount);
      var allocation := ListAlloc(meta, ram);

      if toFreeHead == NULL {
        toFreeHead := allocation;
        firstAllocation := allocation;
        base := allocation;
      }

      var adjacent := lastAllocation + meta.objectSize == allocation;
      if lastAllocation != NULL && !adjacent {
        // The source frees the partial run here and restarts the search.
        assert false;
      }

      if fails >= 16 {
        // The source gives up here and frees every block it popped.
        assert false;
      }

      objectCount := objectCount + 1;
    }

    assert objectCount == Max0(objects);
    if fails == 0 {
      return base;
    }
    // The source frees the blocks of every failed attempt here.
    assert false;
  }

  /** Walking `k` links and then one more is walking `k + 1` links. */
  lemma {:induction false} WalkStep(mem: map<nat, nat>, a: nat, k: nat, more: nat)
    requires Walkable(mem, a, k)
    requires Walkable(mem, Walk(mem, a, k), more)
    ensures Walkable(mem, a, k + more)
    ensures more > 0 ==>
      && Walkable(mem, a, k + 1)
      && Walk(mem, a, k + 1) == mem[Walk(mem, a, k)]
      && Walkable(mem, Walk(mem, a, k + 1), more - 1)
    decreases k
  {
    if k > 0 {
      WalkStep(mem, mem[a], k - 1, more);
    }
  }

  /** The first `objects` blocks of a chain of adjacent blocks are walked
      one by one, ending at the block after them. */
  lemma AdjacentRunWalk(words: map<nat, nat>, base: nat, size: nat, n: nat, objects: nat)
    requires base != NULL && 0 < objects <= n
    requires Linked(words, Slots(base, size, n), SlotAddr(base, size, n))
    ensures Walkable(words, base, objects)
    ensures Nodes(words, base, objects) == Slots(base, size, objects)
    ensures Walk(words, base, objects) == SlotAddr(base, size, objects)
  {
    var chain := Slots(base, size, n);
    if objects < n {
      LinkedPrefix(words, chain, SlotAddr(base, size, n), objects);
    }
    var run := chain[..objects];
    assert run == Slots(base, size, objects);
    forall i | 0 <= i < |run| ensures run[i] != NULL {
      assert run[i] == base + i * size;
    }
    LinkedWalk(words, run, SlotAddr(base, size, objects));
  }

  /** On a freshly initialised list of at least `objects` blocks the popped
      blocks are adjacent: `Arc_ListContiguousAlloc` returns `base` and the
      head moves to `base + objects * size`. */
  lemma FreshContiguousAlloc(mem: map<nat, nat>, base: nat, size: nat, n: nat, objects: nat)
    requires size > 0 && base != NULL && 0 < objects <= n
    ensures var words := ThreadSlots(mem, base, size, SlotCount(base, SlotAddr(base, size, n), size));
      && Walkable(words, base, objects)
      && Nodes(words, base, objects) == Slots(base, size, objects)
      && Walk(words, base, objects) == SlotAddr(base, size, objects)
  {
    FreshChain(mem, base, size, n);
    AdjacentRunWalk(ThreadSlots(mem, base, size, SlotCount(base, SlotAddr(base, size, n), size)), base, size, n, objects);
  }

  /** The popped blocks need not be adjacent: with the free list
      `0x1000 -> 0x3000 -> 0x4000`, two pops return 0x1000 although 0x2000
      is not free. */
  lemma ContiguousAllocIgnoresGaps()
    ensures var mem := map[0x1000 := 0x3000, 0x3000 := 0x4000];
      && Walkable(mem, 0x1000, 2)
      && Nodes(mem, 0x1000, 2) == [0x1000, 0x3000]
      && Nodes(mem, 0x1000, 2)[0] + 0x1000 != Nodes(mem, 0x1000, 2)[1]
  {
    var mem := map[0x1000 := 0x3000, 0x3000 := 0x4000];
    assert Walkable(mem, 0x4000, 0);
    assert Walkable(mem, 0x3000, 1);
  }

  /** How `Arc_ListLink` ends. */
  datatype LinkOutcome = Joined(combined: Desc) | BothDirty | SizeMismatch

  /** A list is dirty once it has handed out a block: its head has left its base. */
  predicate Dirty(d: Desc)
  {
    d.head != d.base
  }

  /** The outcome of `Arc_ListLink(a, b, &combined)`. The combined
      descriptor adopts the chain of the list with the lower base; the other
      chain is not spliced in. */
  function Link(a: Desc, b: Desc): (r: LinkOutcome)
    ensures r.BothDirty? <==> Dirty(a) && Dirty(b)
    ensures r.SizeMismatch? <==> !(Dirty(a) && Dirty(b)) && a.objectSize != b.objectSize
    ensures r.Joined? ==> r.combined.objectSize == a.objectSize == b.objectSize
    ensures r.Joined? ==> r.combined.base <= a.base && r.combined.base <= b.base
    ensures r.Joined? ==> r.combined.ciel == b.ciel
    ensures r.Joined? ==> (r.combined.base, r.combined.head) in {(a.base, a.head), (b.base, b.head)}
    ensures r.Joined? ==> r.combined.head == (if a.base < b.base then a.head else b.head)
  {
    if Dirty(a) && Dirty(b) then BothDirty
    else if a.objectSize != b.objectSize then SizeMismatch
    else if a.base < b.base then Joined(Desc(a.base, b.ciel, a.head, a.objectSize))
    else Joined(Desc(b.base, b.ciel, b.head, a.objectSize))
  }

  /** The integer `Arc_ListLink` returns for an outcome. */
  function LinkCode(o: LinkOutcome): int
  {
    match o
    case Joined(_) => 0
    case BothDirty => -2
    case SizeMismatch => -1
  }

  /** Link two descriptors into `combined` (`Arc_ListLink`). `combined` may
      be `A` itself, as when the physical memory manager links into the
      descriptor it is already using. */
  method ListLink(A: FreelistMeta, B: FreelistMeta, combined: FreelistMeta) returns (code: int)
    modifies combined
    ensures code == LinkCode(Link(old(A.View()), old(B.View())))
    ensures Link(old(A.View()), old(B.View())).Joined? ==>
      combined.View() == Link(old(A.View()), old(B.View())).combined
    ensures !Link(old(A.View()), old(B.View())).Joined? ==> unchanged(combined)
  {
    if A.head != A.base && B.head != B.base {
      return -2;
    }
    if A.objectSize != B.objectSize {
      return -1;
    }
    combined.objectSize := A.objectSize;
    if A.base < B.base {
      combined.base := A.base;
      combined.ciel := B.ciel;
      combined.head := A.head;
      return 0;
    }
    combined.base := B.base;
    combined.ciel := B.ciel;
    combined.head := B.head;
    return 0;
  }
}
