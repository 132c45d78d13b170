/** The page pool of kernel/src/c/mm/alloc.c.

    A `struct pool_descriptor` has a base, a head and an object size; like
    the free-list engine it keeps the link of each free block in the block's
    first word, but it has no ceiling and its chain ends in NULL. A chain is
    given to the proofs as the sequence of its nodes (`Chain`), which is
    what makes the search loop of `alloc_pages` terminate. */
module Pool {
  import opened Memory
  import opened Wrappers

  /** A `struct pool_descriptor` whose head `alloc_pages` and `free_pages`
      move in place. */
  class PoolDescriptor {
    var base: nat
    var head: nat
    var objectSize: nat

    constructor (base: nat, head: nat, objectSize: nat)
      ensures this.base == base && this.head == head && this.objectSize == objectSize
    {
      this.base, this.head, this.objectSize := base, head, objectSize;
    }
  }

  /** Position `j` of a chain: one of its nodes, or NULL just past its end. */
  function Node(nodes: seq<nat>, j: nat): nat
  {
    if j < |nodes| then nodes[j] else NULL
  }

  /** The NULL-terminated chain `nodes` starts at `head` and is threaded through `mem`. */
  ghost predicate Chain(mem: map<nat, nat>, nodes: seq<nat>, head: nat)
  {
    && Linked(mem, nodes, NULL)
    && (forall j :: 0 <= j < |nodes| ==> nodes[j] != NULL)
    && head == Node(nodes, 0)
  }

  /** No block of the chain runs past the top of the 64-bit address space. */
  predicate NoStraddle(nodes: seq<nat>, size: nat)
  {
    forall j :: 0 <= j < |nodes| ==> nodes[j] + size < WORD_LIMIT
  }

  /** `alloc_pages`'s test at node `j`: the 64-bit difference between the
      next node and this one is the object size. */
  predicate Adjacent(nodes: seq<nat>, size: nat, j: nat)
    requires j < |nodes|
  {
    (Node(nodes, j + 1) - nodes[j]) % WORD_LIMIT == size
  }

  /** Every step from position `lo` up to position `hi` is adjacent. */
  predicate Run(nodes: seq<nat>, size: nat, lo: nat, hi: nat)
  {
    lo <= hi <= |nodes| && forall j :: lo <= j < hi ==> Adjacent(nodes, size, j)
  }

  /** `pages` adjacent steps start at position `v`. */
  predicate Window(nodes: seq<nat>, size: nat, v: nat, pages: nat)
  {
    Run(nodes, size, v, v + pages)
  }

  /** The first position, from `from` on, where `pages` adjacent steps
      start: the reference first-fit search. */
  function FirstRun(nodes: seq<nat>, size: nat, pages: nat, from: nat): (w: Option<nat>)
    ensures w.Some? ==>
      && from <= w.value
      && Window(nodes, size, w.value, pages)
      && forall v :: from <= v < w.value ==> !Window(nodes, size, v, pages)
    ensures w.None? ==> forall v :: from <= v ==> !Window(nodes, size, v, pages)
    decreases |nodes| - from
  {
    if from + pages > |nodes| then None
    else if Run(nodes, size, from, from + pages) then Some(from)
    else FirstRun(nodes, size, pages, from + 1)
  }

  /** The positions where `alloc_pages`'s loop stops: `start` is where the
      current run began (`address`), `stop` is where the head is. */
  datatype ScanEnd = ScanEnd(start: nat, stop: nat)

  /** `alloc_pages`'s loop from head position `i`, with the current run
      begun at position `st` (so `count == i - st + 1`). */
  function Scan(nodes: seq<nat>, size: nat, pages: nat, i: nat, st: nat): (e: ScanEnd)
    requires st <= i <= |nodes|
    ensures st <= e.start <= e.stop <= |nodes|
    decreases |nodes| - i
  {
    if i == |nodes| || i - st + 1 > pages then ScanEnd(st, i)
    else if Adjacent(nodes, size, i) then Scan(nodes, size, pages, i + 1, st)
    else Scan(nodes, size, pages, i + 1, i + 1)
  }

  /** What `alloc_pages(pool, pages)` returns and where it leaves the head. */
  function AllocOutcome(nodes: seq<nat>, size: nat, pages: nat): (nat, nat)
  {
    var e := Scan(nodes, size, pages, 0, 0);
    (if e.stop - e.start + 1 < pages then NULL else Node(nodes, e.start), Node(nodes, e.stop))
  }

  /** `alloc_pages`: walk the chain, counting adjacent steps and restarting
      the count at every gap, until `pages` adjacent steps follow the
      current start or the chain ends. Every node walked over is dropped
      from the pool, the gaps included. */
  method AllocPages(pool: PoolDescriptor, ram: Ram, pages: nat, ghost nodes: seq<nat>) returns (r: nat)
    requires Chain(ram.words, nodes, pool.head)
    modifies pool
    ensures pool.base == old(pool.base) && pool.objectSize == old(pool.objectSize)
    ensures pages == 0 ==> r == NULL && pool.head == old(pool.head)
    ensures pages > 0 ==> (r, pool.head) == AllocOutcome(nodes, pool.objectSize, pages)
  {
    if pages == 0 {
      return NULL;
    }
    var address := pool.head;
    var count := 1;
    ghost var i := 0;
    ghost var st := 0;
    while pool.head != NULL && count <= pages
      invariant st <= i <= |nodes|
      invariant pool.head == Node(nodes, i) && address == Node(nodes, st)
      invariant count == i - st + 1
      invariant Scan(nodes, pool.objectSize, pages, i, st) == Scan(nodes, pool.objectSize, pages, 0, 0)
      invariant pool.base == old(pool.base) && pool.objectSize == old(pool.objectSize)
      decreases |nodes| - i
    {
      assert ram.words[nodes[i]] == Node(nodes, i + 1);
      var next := ram.words[pool.head];
      var difference := (next - pool.head) % WORD_LIMIT;
      pool.head := next;
      if difference == pool.objectSize {
        count := count + 1;
        i := i + 1;
        continue;
      }
      count := 1;
      address := pool.head;
      i := i + 1;
      st := i;
    }
    if count < pages {
      return NULL;
    }
    return address;
  }

  /** Skipping positions that start no window does not change the first window. */
  lemma {:induction false} FirstRunSkip(nodes: seq<nat>, size: nat, pages: nat, from: nat, until: nat)
    requires from <= until
    requires forall v :: from <= v < until ==> !Window(nodes, size, v, pages)
    ensures FirstRun(nodes, size, pages, from) == FirstRun(nodes, size, pages, until)
    decreases until - from
  {
    if from < until {
      assert !Window(nodes, size, from, pages);
      if from + pages <= |nodes| {
        FirstRunSkip(nodes, size, pages, from + 1, until);
      }
    }
  }

  /** With no block past the top of memory, the last node's step (to NULL)
      is never adjacent. */
  lemma LastStepNotAdjacent(nodes: seq<nat>, size: nat)
    requires |nodes| > 0 && NoStraddle(nodes, size)
    requires forall j :: 0 <= j < |nodes| ==> nodes[j] != NULL
    ensures !Adjacent(nodes, size, |nodes| - 1)
  {
    var x := nodes[|nodes| - 1];
    assert (0 - x) % WORD_LIMIT == WORD_LIMIT - x;
  }

  /** The loop from position `i` with the run begun at `st` ends at the
      first window from `st` on, or runs off the chain when there is none. */
  lemma {:induction false} ScanFrom(nodes: seq<nat>, size: nat, pages: nat, i: nat, st: nat)
    requires pages >= 1 && st <= i <= |nodes| && i - st <= pages
    requires Run(nodes, size, st, i)
    requires NoStraddle(nodes, size)
    requires forall j :: 0 <= j < |nodes| ==> nodes[j] != NULL
    ensures var e := Scan(nodes, size, pages, i, st);
      match FirstRun(nodes, size, pages, st)
      case Some(w) => e.start == w && e.stop == w + pages
      case None => e.stop == |nodes| && (e.stop - e.start + 1 < pages || e.start == |nodes|)
    decreases |nodes| - i
  {
    if i - st + 1 > pages {
      assert i == st + pages;
      assert FirstRun(nodes, size, pages, st) == Some(st);
    } else if i == |nodes| {
      assert FirstRun(nodes, size, pages, st).None?;
      if st < i {
        LastStepNotAdjacent(nodes, size);
      }
    } else if Adjacent(nodes, size, i) {
      ScanFrom(nodes, size, pages, i + 1, st);
    } else {
      forall v | st <= v < i + 1
        ensures !Window(nodes, size, v, pages)
      {
        assert !Adjacent(nodes, size, i);
      }
      FirstRunSkip(nodes, size, pages, st, i + 1);
      ScanFrom(nodes, size, pages, i + 1, i + 1);
    }
  }

  /** `alloc_pages` finds the first run of `pages` adjacent steps: it
      returns the node where that run starts and leaves the head `pages`
      nodes further on; when there is no such run it returns NULL and the
      whole chain has been dropped. */
  lemma AllocFindsFirstRun(nodes: seq<nat>, size: nat, pages: nat)
    requires pages >= 1 && NoStraddle(nodes, size)
    requires forall j :: 0 <= j < |nodes| ==> nodes[j] != NULL
    ensures AllocOutcome(nodes, size, pages) ==
      match FirstRun(nodes, size, pages, 0)
      case Some(w) => (nodes[w], Node(nodes, w + pages))
      case None => (NULL, NULL)
  {
    ScanFrom(nodes, size, pages, 0, 0);
  }

  /** Along a run, adjacent nodes are exactly `size` bytes apart, and the
      run ends before the chain does. */
  lemma {:induction false} RunAddresses(nodes: seq<nat>, size: nat, lo: nat, hi: nat)
    requires Run(nodes, size, lo, hi) && lo < |nodes|
    requires NoStraddle(nodes, size)
    requires forall j :: 0 <= j < |nodes| ==> nodes[j] != NULL
    ensures hi < |nodes|
    ensures forall t :: 0 <= t <= hi - lo ==> nodes[lo + t] == SlotAddr(nodes[lo], size, t)
    decreases hi - lo
  {
    LastStepNotAdjacent(nodes, size);
    if lo < hi {
      assert Adjacent(nodes, size, lo);
      AdjacentStep(nodes[lo + 1], nodes[lo], size);
      RunAddresses(nodes, size, lo + 1, hi);
      forall t | 0 <= t <= hi - lo
        ensures nodes[lo + t] == SlotAddr(nodes[lo], size, t)
      {
        if t > 0 {
          assert nodes[lo + 1 + (t - 1)] == SlotAddr(nodes[lo + 1], size, t - 1);
        }
      }
    }
  }

  /** Within the 64-bit address space, a 64-bit difference of `size`
      between two addresses is a real one. */
  lemma AdjacentStep(next: nat, cur: nat, size: nat)
    requires next < WORD_LIMIT && cur + size < WORD_LIMIT
    requires (next - cur) % WORD_LIMIT == size
    ensures next == cur + size
  {
    assert (next - cur) % WORD_LIMIT == if next >= cur then next - cur else next - cur + WORD_LIMIT;
  }

  /** A successful `alloc_pages` hands out `pages` consecutive blocks
      `A, A + size, ..., A + (pages - 1) * size`, each linked to the next,
      and leaves the head at `A + pages * size`. */
  lemma AllocReturnsConsecutive(mem: map<nat, nat>, nodes: seq<nat>, size: nat, pages: nat)
    requires Chain(mem, nodes, Node(nodes, 0)) && NoStraddle(nodes, size) && pages >= 1
    requires AllocOutcome(nodes, size, pages).0 != NULL
    ensures var (a, h) := AllocOutcome(nodes, size, pages);
      && h == SlotAddr(a, size, pages)
      && forall t :: 0 <= t < pages ==>
           SlotAddr(a, size, t) in mem && mem[SlotAddr(a, size, t)] == SlotAddr(a, size, t + 1)
  {
    AllocFindsFirstRun(nodes, size, pages);
    var w := FirstRun(nodes, size, pages, 0).value;
    RunAddresses(nodes, size, w, w + pages);
    var a := nodes[w];
    forall t | 0 <= t < pages
      ensures SlotAddr(a, size, t) in mem && mem[SlotAddr(a, size, t)] == SlotAddr(a, size, t + 1)
    {
      assert mem[nodes[w + t]] == Succ(nodes, w + t, NULL);
      assert nodes[w + t + 1] == SlotAddr(a, size, t + 1);
    }
  }

  /** The memory `init_pool(base, size, n)` leaves: blocks `0 .. n - 1`
      threaded in ascending order and block `n` linking to NULL. */
  function PoolWords(mem: map<nat, nat>, base: nat, size: nat, n: nat): (m: map<nat, nat>)
    requires n > 0
    ensures size > 0 ==> Linked(m, Slots(base, size, n + 1), NULL)
  {
    assert size > 0 ==> Linked(ThreadSlots(mem, base, size, n)[SlotAddr(base, size, n) := NULL], Slots(base, size, n + 1), NULL) by {
      if size > 0 {
        ThreadSlotsChain(mem, base, size, n);
        ChainAppend(ThreadSlots(mem, base, size, n), base, size, n, NULL);
      }
    }
    ThreadSlots(mem, base, size, n)[SlotAddr(base, size, n) := NULL]
  }

  /** Ending a threaded run of `n` blocks by writing `last` into block `n`
      gives a chain of `n + 1` blocks ending in `last`. */
  lemma ChainAppend(mem: map<nat, nat>, base: nat, size: nat, n: nat, last: nat)
    requires size > 0
    requires Linked(mem, Slots(base, size, n), SlotAddr(base, size, n))
    ensures Linked(mem[SlotAddr(base, size, n) := last], Slots(base, size, n + 1), last)
  {
    var m := mem[SlotAddr(base, size, n) := last];
    var s := Slots(base, size, n + 1);
    var sp := Slots(base, size, n);
    forall i | 0 <= i < n + 1
      ensures s[i] in m && m[s[i]] == Succ(s, i, last)
    {
      if i < n {
        assert sp[i] == s[i];
        assert mem[sp[i]] == Succ(sp, i, SlotAddr(base, size, n));
        MulStrict(i, n, size);
      }
    }
  }

  /** `init_pool`: thread `objects` blocks of `size` bytes from `base`,
      clearing the link of the block after each one, and describe them. */
  method InitPool(ram: Ram, base: nat, size: nat, objects: nat) returns (pool: PoolDescriptor)
    modifies ram
    ensures fresh(pool)
    ensures pool.base == base && pool.head == base && pool.objectSize == size
    ensures objects == 0 ==> ram.words == old(ram.words)
    ensures objects > 0 ==> ram.words == PoolWords(old(ram.words), base, size, objects)
  {
    var i := 0;
    while i < objects
      invariant 0 <= i <= objects
      invariant i == 0 ==> ram.words == old(ram.words)
      invariant i > 0 ==> ram.words == PoolWords(old(ram.words), base, size, i)
    {
      var address := base + i * size;
      var next := address + size;
      ghost var threaded := ThreadSlots(old(ram.words), base, size, i);
      assert address == SlotAddr(base, size, i) && next == SlotAddr(base, size, i + 1);
      assert i > 0 ==> ram.words[address := next] == threaded[address := next];
      ram.words := ram.words[address := next];
      ram.words := ram.words[next := NULL];
      assert ThreadSlots(old(ram.words), base, size, i + 1) == threaded[address := next];
      i := i + 1;
    }
    pool := new PoolDescriptor(base, base, size);
  }

  /** A pool fresh from `init_pool(base, size, n)` is the chain of the
      `n + 1` blocks `base, ..., base + n * size`. */
  lemma FreshPoolChain(mem: map<nat, nat>, base: nat, size: nat, n: nat)
    requires n > 0 && size > 0 && base != NULL
    ensures Chain(PoolWords(mem, base, size, n), Slots(base, size, n + 1), base)
  {
    var nodes := Slots(base, size, n + 1);
    forall j | 0 <= j < |nodes|
      ensures nodes[j] != NULL
    {
      assert nodes[j] == base + j * size;
    }
  }

  /** On a fresh pool of `n` blocks, `alloc_pages(pool, pages)` with
      `1 <= pages <= n` returns `base` and moves the head to
      `base + pages * size`; asking for more than `n` pages returns NULL. */
  lemma FreshPoolAlloc(base: nat, size: nat, n: nat, pages: nat)
    requires size > 0 && base != NULL && n > 0 && pages >= 1
    requires SlotAddr(base, size, n + 1) < WORD_LIMIT
    ensures var nodes := Slots(base, size, n + 1);
      AllocOutcome(nodes, size, pages) ==
        if pages <= n then (base, SlotAddr(base, size, pages)) else (NULL, NULL)
  {
    var nodes := Slots(base, size, n + 1);
    assert NoStraddle(nodes, size) by {
      forall j | 0 <= j < |nodes| ensures nodes[j] + size < WORD_LIMIT {
        assert nodes[j] + size == SlotAddr(base, size, j + 1);
        if j + 1 < n + 1 {
          MulStrict(j + 1, n + 1, size);
        }
      }
    }
    AllocFindsFirstRun(nodes, size, pages);
    forall j | 0 <= j < n
      ensures Adjacent(nodes, size, j)
    {
      assert Node(nodes, j + 1) == nodes[j] + size;
    }
    if pages <= n {
      assert Window(nodes, size, 0, pages);
      assert FirstRun(nodes, size, pages, 0) == Some(0);
    } else {
      LastStepNotAdjacent(nodes, size);
      forall v | 0 <= v
        ensures !Window(nodes, size, v, pages)
      {
        if v + pages <= n + 1 {
          assert v == 0 && !Adjacent(nodes, size, n);
        }
      }
    }
  }

  /** The memory `free_pages(pool, address, k)` leaves, as written: it
      threads `k` blocks from `address` and then writes the old head into
      block `k`, one block past the range freed. */
  function FreedAsWritten(mem: map<nat, nat>, address: nat, size: nat, k: nat, head: nat): (m: map<nat, nat>)
    ensures size > 0 ==> Linked(m, Slots(address, size, k + 1), head)
  {
    assert size > 0 ==> Linked(ThreadSlots(mem, address, size, k)[SlotAddr(address, size, k) := head], Slots(address, size, k + 1), head) by {
      if size > 0 {
        ThreadSlotsChain(mem, address, size, k);
        ChainAppend(ThreadSlots(mem, address, size, k), address, size, k, head);
      }
    }
    ThreadSlots(mem, address, size, k)[SlotAddr(address, size, k) := head]
  }

  /** `free_pages` as written: `k + 1` blocks go back on the pool. */
  method FreePages(pool: PoolDescriptor, ram: Ram, address: nat, pages: nat) returns (r: nat)
    modifies pool, ram
    ensures pool.base == old(pool.base) && pool.objectSize == old(pool.objectSize)
    ensures pages == 0 ==> r == NULL && pool.head == old(pool.head) && ram.words == old(ram.words)
    ensures pages > 0 ==>
      && r == address && pool.head == address
      && ram.words == FreedAsWritten(old(ram.words), address, pool.objectSize, pages, old(pool.head))
  {
    if pages == 0 {
      return NULL;
    }
    var current := address;
    var i := 0;
    while i < pages
      invariant 0 <= i <= pages
      invariant current == SlotAddr(address, pool.objectSize, i)
      invariant ram.words == ThreadSlots(old(ram.words), address, pool.objectSize, i)
      invariant pool.head == old(pool.head)
      modifies ram
    {
      current := address + i * pool.objectSize;
      ram.words := ram.words[current := current + pool.objectSize];
      current := current + pool.objectSize;
      i := i + 1;
    }
    ram.words := ram.words[current := pool.head];
    pool.head := address;
    return address;
  }

  /** The memory a `free_pages` that gives back exactly `k` blocks leaves:
      blocks `0 .. k - 2` threaded and block `k - 1` linking to the old head. */
  function FreedPages(mem: map<nat, nat>, address: nat, size: nat, k: nat, head: nat): (m: map<nat, nat>)
    requires k > 0
    ensures size > 0 ==> Linked(m, Slots(address, size, k), head)
  {
    var n := k - 1;
    var r := ThreadSlots(mem, address, size, n)[SlotAddr(address, size, n) := head];
    assert size > 0 ==> Linked(r, Slots(address, size, n + 1), head) by {
      if size > 0 {
        ThreadSlotsChain(mem, address, size, n);
        ChainAppend(ThreadSlots(mem, address, size, n), address, size, n, head);
      }
    }
    r
  }

  /** `free_pages` giving back exactly the `pages` blocks of the range. */
  method FreePagesCorrected(pool: PoolDescriptor, ram: Ram, address: nat, pages: nat) returns (r: nat)
    modifies pool, ram
    ensures pool.base == old(pool.base) && pool.objectSize == old(pool.objectSize)
    ensures pages == 0 ==> r == NULL && pool.head == old(pool.head) && ram.words == old(ram.words)
    ensures pages > 0 ==>
      && r == address && pool.head == address
      && ram.words == FreedPages(old(ram.words), address, pool.objectSize, pages, old(pool.head))
  {
    if pages == 0 {
      return NULL;
    }
    var i := 0;
    while i < pages - 1
      invariant 0 <= i <= pages - 1
      invariant ram.words == ThreadSlots(old(ram.words), address, pool.objectSize, i)
      invariant pool.head == old(pool.head)
      modifies ram
    {
      var current := address + i * pool.objectSize;
      ram.words := ram.words[current := current + pool.objectSize];
      i := i + 1;
    }
    ram.words := ram.words[address + (pages - 1) * pool.objectSize := pool.head];
    pool.head := address;
    return address;
  }

  /** Freeing, as written, the blocks a successful `alloc_pages` just
      returned makes the new head's block link to itself: from the freed
      address the chain never reaches NULL, however far it is followed, so
      no NULL-terminated chain (as `AllocPages` walks) starts there. */
  lemma FreeAfterAllocLoops(mem: map<nat, nat>, nodes: seq<nat>, size: nat, pages: nat)
    requires Chain(mem, nodes, Node(nodes, 0)) && NoStraddle(nodes, size) && pages >= 1 && size > 0
    requires AllocOutcome(nodes, size, pages).0 != NULL
    ensures var (a, h) := AllocOutcome(nodes, size, pages);
      var m := FreedAsWritten(mem, a, size, pages, h);
      && h in m && m[h] == h
      && forall k :: Walkable(m, a, k) && Walk(m, a, k) != NULL
  {
    AllocReturnsConsecutive(mem, nodes, size, pages);
    var (a, h) := AllocOutcome(nodes, size, pages);
    SelfLoopNeverNull(mem, a, size, pages);
  }

  /** Freeing `pages` blocks as written while the head is block `pages`
      leaves a chain that can be followed forever without reaching NULL. */
  lemma SelfLoopNeverNull(mem: map<nat, nat>, a: nat, size: nat, pages: nat)
    requires a != NULL && size > 0
    ensures var h := SlotAddr(a, size, pages);
      var m := FreedAsWritten(mem, a, size, pages, h);
      && h in m && m[h] == h
      && forall k :: Walkable(m, a, k) && Walk(m, a, k) != NULL
  {
    var m := FreedAsWritten(mem, a, size, pages, SlotAddr(a, size, pages));
    SelfLoopWords(mem, a, size, pages);
    SelfLoopWalks(m, a, size, pages);
  }

  /** In memory where blocks `0 .. pages - 1` each link to the next and
      block `pages` links to itself, every walk from block 0 avoids NULL. */
  lemma SelfLoopWalks(m: map<nat, nat>, a: nat, size: nat, pages: nat)
    requires a != NULL && size > 0
    requires forall u :: 0 <= u <= pages ==>
      SlotAddr(a, size, u) in m && m[SlotAddr(a, size, u)] == SlotAddr(a, size, if u < pages then u + 1 else pages)
    ensures SlotAddr(a, size, pages) in m && m[SlotAddr(a, size, pages)] == SlotAddr(a, size, pages)
    ensures forall k :: Walkable(m, a, k) && Walk(m, a, k) != NULL
  {
    assert SlotAddr(a, size, 0) == a;
    forall k | 0 <= k
      ensures Walkable(m, a, k) && Walk(m, a, k) != NULL
    {
      WalkSlots(m, a, size, pages, 0, k);
    }
  }

  /** Freeing `pages` blocks as written when the head is block `pages`
      itself: each block links to the next, and block `pages` to itself. */
  lemma SelfLoopWords(mem: map<nat, nat>, a: nat, size: nat, pages: nat)
    requires size > 0
    ensures var m := FreedAsWritten(mem, a, size, pages, SlotAddr(a, size, pages));
      forall u :: 0 <= u <= pages ==>
        SlotAddr(a, size, u) in m && m[SlotAddr(a, size, u)] == SlotAddr(a, size, if u < pages then u + 1 else pages)
  {
    var h := SlotAddr(a, size, pages);
    var m := FreedAsWritten(mem, a, size, pages, h);
    var s := Slots(a, size, pages + 1);
    forall u | 0 <= u <= pages
      ensures SlotAddr(a, size, u) in m && m[SlotAddr(a, size, u)] == SlotAddr(a, size, if u < pages then u + 1 else pages)
    {
      assert s[u] == SlotAddr(a, size, u);
      assert m[s[u]] == Succ(s, u, h);
    }
  }

  /** Following `k` links from block `t` of a run of blocks whose block
      `pages` links to itself visits only blocks of the run. */
  lemma {:induction false} WalkSlots(m: map<nat, nat>, a: nat, size: nat, pages: nat, t: nat, k: nat)
    requires a != NULL && size > 0 && t <= pages
    requires forall u :: 0 <= u <= pages ==>
      SlotAddr(a, size, u) in m && m[SlotAddr(a, size, u)] == SlotAddr(a, size, if u < pages then u + 1 else pages)
    ensures Walkable(m, SlotAddr(a, size, t), k)
    ensures Walk(m, SlotAddr(a, size, t), k) == SlotAddr(a, size, if t + k < pages then t + k else pages)
    ensures Walk(m, SlotAddr(a, size, t), k) != NULL
    decreases k
  {
    if k > 0 {
      var next := if t < pages then t + 1 else pages;
      WalkSlots(m, a, size, pages, next, k - 1);
      assert m[SlotAddr(a, size, t)] == SlotAddr(a, size, next);
    }
  }

  /** Giving back exactly the blocks a successful `alloc_pages` returned
      restores memory word for word. */
  lemma FreeUndoesAlloc(mem: map<nat, nat>, nodes: seq<nat>, size: nat, pages: nat)
    requires Chain(mem, nodes, Node(nodes, 0)) && NoStraddle(nodes, size) && pages >= 1
    requires AllocOutcome(nodes, size, pages).0 != NULL
    ensures var (a, h) := AllocOutcome(nodes, size, pages);
      FreedPages(mem, a, size, pages, h) == mem
  {
    AllocReturnsConsecutive(mem, nodes, size, pages);
    var (a, h) := AllocOutcome(nodes, size, pages);
    ThreadSlotsNoop(mem, a, size, pages - 1);
  }
}
