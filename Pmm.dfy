/** The physical memory manager of src/c/mm/pmm.c.

    It owns one process-wide descriptor pointer (`arc_physical_mem`) and two
    static descriptors (`new_list`, `combined`). Until `Arc_InitPMM` has run
    the descriptor pointer is NULL and every operation answers NULL. Initialisation
    takes over the free list the boot stage built in physical addresses,
    moves it (descriptor and every link) into the higher-half direct map
    (HHDM), and then folds further available memory-map entries in with
    `Arc_InitializeFreelist` and `Arc_ListLink`. The HHDM offset is a
    parameter, and `ARC_PHYS_TO_HHDM(x)` is taken to be `x + hhdm`. */
module Pmm {
  import opened Memory
  import opened Freelist

  /** `MULTIBOOT_MEMORY_AVAILABLE` of the Multiboot2 specification. */
  const MEMORY_AVAILABLE: nat := 1

  /** The object size of every list folded in from the memory map. */
  const PAGE_SIZE: nat := 0x1000

  /** A `struct ARC_MMap` entry: physical base, length and type. */
  datatype MMapEntry = MMapEntry(base: nat, len: nat, kind: nat)

  /** The three statics of pmm.c. */
  class Pmm {
    var physicalMem: FreelistMeta?
    const newList: FreelistMeta
    const combined: FreelistMeta

    /** The statics before `Arc_InitPMM`: a NULL pointer and two zeroed descriptors. */
    constructor ()
      ensures physicalMem == null && newList != combined
      ensures newList.View() == Desc(0, 0, 0, 0) && combined.View() == Desc(0, 0, 0, 0)
    {
      physicalMem := null;
      newList := new FreelistMeta();
      combined := new FreelistMeta();
    }
  }

  /** A `size_t` argument passed on as an `int`: its low 32 bits read as a
      two's-complement value. */
  function ToInt32(x: nat): (r: int)
    ensures -0x8000_0000 <= r < 0x8000_0000
    ensures (r - x) % U32_LIMIT == 0
  {
    var low := x % U32_LIMIT;
    if low >= 0x8000_0000 then low - U32_LIMIT else low
  }

  /** `Arc_AllocPMM`: NULL before initialisation, otherwise `Arc_ListAlloc`. */
  method Alloc(pmm: Pmm, ram: Ram) returns (r: nat)
    requires pmm.physicalMem != null ==> pmm.physicalMem.head != NULL && pmm.physicalMem.head in ram.words
    modifies pmm.physicalMem
    ensures pmm.physicalMem == null ==> r == NULL
    ensures pmm.physicalMem != null ==>
      && r == old(pmm.physicalMem.head)
      && pmm.physicalMem.View() == old(pmm.physicalMem.View()).(head := ram.words[r])
  {
    if pmm.physicalMem == null {
      return NULL;
    }
    r := ListAlloc(pmm.physicalMem, ram);
  }

  /** `Arc_ContiguousAllocPMM`: NULL before initialisation, otherwise
      `Arc_ListContiguousAlloc` with the count narrowed to `int`. */
  method ContiguousAlloc(pmm: Pmm, ram: Ram, objects: nat) returns (r: nat)
    requires objects < WORD_LIMIT
    requires pmm.physicalMem != null ==> Walkable(ram.words, pmm.physicalMem.head, Max0(ToInt32(objects)))
    modifies pmm.physicalMem
    ensures pmm.physicalMem == null ==> r == NULL
    ensures pmm.physicalMem != null ==>
      && r == (if ToInt32(objects) > 0 then old(pmm.physicalMem.head) else NULL)
      && pmm.physicalMem.View() ==
           old(pmm.physicalMem.View()).(head := Walk(ram.words, old(pmm.physicalMem.head), Max0(ToInt32(objects))))
  {
    if pmm.physicalMem == null {
      return NULL;
    }
    r := ListContiguousAlloc(pmm.physicalMem, ram, ToInt32(objects));
  }

  /** `Arc_FreePMM`: NULL before initialisation, otherwise `Arc_ListFree`. */
  method Free(pmm: Pmm, ram: Ram, address: nat) returns (r: nat)
    modifies pmm.physicalMem, ram
    ensures pmm.physicalMem == null ==> r == NULL && ram.words == old(ram.words)
    ensures pmm.physicalMem != null && Accepts(old(pmm.physicalMem.View()), address) ==>
      && r == address
      && pmm.physicalMem.View() == old(pmm.physicalMem.View()).(head := address)
      && ram.words == old(ram.words)[address := old(pmm.physicalMem.head)]
    ensures pmm.physicalMem != null && !Accepts(old(pmm.physicalMem.View()), address) ==>
      r == NULL && pmm.physicalMem.View() == old(pmm.physicalMem.View()) && ram.words == old(ram.words)
  {
    if pmm.physicalMem == null {
      return NULL;
    }
    r := ListFree(pmm.physicalMem, ram, address);
  }

  /** `Arc_ContiguousFreePMM`: NULL before initialisation, otherwise
      `Arc_ListContiguousFree` with the count narrowed to `int`. */
  method ContiguousFree(pmm: Pmm, ram: Ram, address: nat, objects: nat) returns (r: nat)
    requires objects < WORD_LIMIT
    modifies pmm.physicalMem, ram
    ensures pmm.physicalMem == null ==> r == NULL && ram.words == old(ram.words)
    ensures pmm.physicalMem != null ==>
      && r == address
      && pmm.physicalMem.base == old(pmm.physicalMem.base)
      && pmm.physicalMem.ciel == old(pmm.physicalMem.ciel)
      && pmm.physicalMem.objectSize == old(pmm.physicalMem.objectSize)
      && (pmm.physicalMem.objectSize > 0 ==>
            PushedFront(old(ram.words), ram.words,
                        AcceptedBlocks(old(pmm.physicalMem.View()), address, pmm.physicalMem.objectSize, 0, Max0(ToInt32(objects))),
                        old(pmm.physicalMem.head), pmm.physicalMem.head))
  {
    if pmm.physicalMem == null {
      return NULL;
    }
    r := ListContiguousFree(pmm.physicalMem, ram, address, ToInt32(objects));
  }

  /** The boot stage's chain as the kernel sees it through the HHDM: node
      `j + 1` is the low 32 bits of node `j`'s link plus `hhdm`, no node
      repeats, and the last node's link is NULL. */
  ghost predicate BootChain(mem: map<nat, nat>, nodes: seq<nat>, hhdm: nat)
  {
    && |nodes| > 0
    && (forall j :: 0 <= j < |nodes| ==> nodes[j] in mem)
    && (forall j, k :: 0 <= j < k < |nodes| ==> nodes[j] != nodes[k])
    && (forall j {:trigger mem[nodes[j]]} :: 0 <= j < |nodes| - 1 ==>
          mem[nodes[j]] != NULL && nodes[j + 1] == mem[nodes[j]] % U32_LIMIT + hhdm)
    && mem[nodes[|nodes| - 1]] == NULL
  }

  /** Memory after the walk has rewritten the links of the first `k`
      nodes, in order, each to its low 32 bits plus `hhdm`. */
  function RebaseWords(mem: map<nat, nat>, nodes: seq<nat>, k: nat, hhdm: nat): (r: map<nat, nat>)
    requires k <= |nodes|
    ensures r.Keys == mem.Keys
    decreases k
  {
    if k == 0 then mem
    else
      var prev := RebaseWords(mem, nodes, k - 1, hhdm);
      var a := nodes[k - 1];
      if a in prev then prev[a := prev[a] % U32_LIMIT + hhdm] else prev
  }

  /** A word the walk has not reached keeps its value. */
  lemma {:induction false} RebaseWordsFrame(mem: map<nat, nat>, nodes: seq<nat>, k: nat, hhdm: nat, a: nat)
    requires k <= |nodes|
    requires forall i :: 0 <= i < k ==> nodes[i] != a
    ensures a in RebaseWords(mem, nodes, k, hhdm) <==> a in mem
    ensures a in mem ==> RebaseWords(mem, nodes, k, hhdm)[a] == mem[a]
    decreases k
  {
    if k > 0 {
      RebaseWordsFrame(mem, nodes, k - 1, hhdm, a);
    }
  }

  /** On a chain without repeated nodes, the link of node `j < k` has been
      rewritten exactly once. */
  lemma {:induction false} RebaseWordsAt(mem: map<nat, nat>, nodes: seq<nat>, k: nat, hhdm: nat, j: nat)
    requires j < k <= |nodes| && nodes[j] in mem
    requires forall i :: 0 <= i < k && i != j ==> nodes[i] != nodes[j]
    ensures nodes[j] in RebaseWords(mem, nodes, k, hhdm)
    ensures RebaseWords(mem, nodes, k, hhdm)[nodes[j]] == mem[nodes[j]] % U32_LIMIT + hhdm
    decreases k
  {
    if j == k - 1 {
      RebaseWordsFrame(mem, nodes, k - 1, hhdm, nodes[j]);
    } else {
      RebaseWordsAt(mem, nodes, k - 1, hhdm, j);
      assert nodes[k - 1] != nodes[j];
    }
  }

  /** After the walk, the boot chain is a NULL-terminated chain through its
      HHDM addresses, and no other word has changed. */
  lemma RebasedChain(mem: map<nat, nat>, nodes: seq<nat>, hhdm: nat)
    requires BootChain(mem, nodes, hhdm)
    ensures var m := RebaseWords(mem, nodes, |nodes| - 1, hhdm);
      && Linked(m, nodes, NULL)
      && forall a :: a in mem && a !in nodes ==> a in m && m[a] == mem[a]
  {
    var n := |nodes| - 1;
    var m := RebaseWords(mem, nodes, n, hhdm);
    forall j | 0 <= j < |nodes|
      ensures nodes[j] in m && m[nodes[j]] == Succ(nodes, j, NULL)
    {
      if j == n {
        RebaseWordsFrame(mem, nodes, n, hhdm, nodes[n]);
      } else {
        RebaseWordsAt(mem, nodes, n, hhdm, j);
      }
    }
    forall a | a in mem && a !in nodes
      ensures a in m && m[a] == mem[a]
    {
      RebaseWordsFrame(mem, nodes, n, hhdm, a);
    }
  }

  /** While the walk is at node `j`, node `j`'s link is still the boot
      stage's, so it is NULL exactly at the last node, and otherwise
      translates to node `j + 1`; rewriting it is the walk's next step. */
  lemma RebaseStep(mem: map<nat, nat>, nodes: seq<nat>, j: nat, hhdm: nat)
    requires BootChain(mem, nodes, hhdm) && j < |nodes|
    ensures var m := RebaseWords(mem, nodes, j, hhdm);
      && nodes[j] in m && m[nodes[j]] == mem[nodes[j]]
      && (m[nodes[j]] == NULL <==> j == |nodes| - 1)
      && (j < |nodes| - 1 ==> nodes[j + 1] == m[nodes[j]] % U32_LIMIT + hhdm)
      && RebaseWords(mem, nodes, j + 1, hhdm) == m[nodes[j] := m[nodes[j]] % U32_LIMIT + hhdm]
  {
    RebaseWordsFrame(mem, nodes, j, hhdm, nodes[j]);
  }

  /** The descriptor and memory `Arc_InitPMM`'s fold carries from entry to entry. */
  datatype PmmState = PmmState(desc: Desc, mem: map<nat, nat>)

  /** Whether the fold leaves memory-map entry `i` alone: entry 0, an entry
      that is not available, one inside `[base, ciel]` of the current list,
      or one whose range contains the current base. */
  predicate Skipped(d: Desc, e: MMapEntry, i: nat, hhdm: nat)
  {
    var eb := e.base + hhdm;
    var ec := e.base + e.len + hhdm;
    || i == 0
    || e.kind != MEMORY_AVAILABLE
    || (eb >= d.base && ec <= d.ciel)
    || (eb <= d.base && d.base < ec)
  }

  /** One round of the fold: a fresh list over the entry's HHDM range is
      threaded into memory and linked into the current descriptor; the
      current descriptor is replaced only when the link succeeds. */
  function FoldEntry(st: PmmState, e: MMapEntry, i: nat, hhdm: nat): (r: PmmState)
    ensures Skipped(st.desc, e, i, hhdm) ==> r == st
    ensures r.desc.objectSize == st.desc.objectSize
    ensures r.desc.base <= st.desc.base
    ensures st.desc.objectSize != PAGE_SIZE ==> r.desc == st.desc
    ensures r.desc != st.desc ==>
      && r.desc.ciel == e.base + e.len + hhdm
      && r.desc.base == (if st.desc.base < e.base + hhdm then st.desc.base else e.base + hhdm)
      && r.desc.head == (if st.desc.base < e.base + hhdm then st.desc.head else e.base + hhdm)
  {
    if Skipped(st.desc, e, i, hhdm) then st
    else
      var eb := e.base + hhdm;
      var ec := e.base + e.len + hhdm;
      var added := Desc(eb, ec, eb, PAGE_SIZE);
      var mem := ThreadSlots(st.mem, eb, PAGE_SIZE, SlotCount(eb, ec, PAGE_SIZE));
      match Link(st.desc, added)
      case Joined(c) => PmmState(c, mem)
      case BothDirty => assert false; st
      case SizeMismatch => PmmState(st.desc, mem)
  }

  /** The fold over entries `0 .. k - 1`. */
  function FoldUpTo(st: PmmState, mmap: seq<MMapEntry>, k: nat, hhdm: nat): PmmState
    requires k <= |mmap|
    decreases k
  {
    if k == 0 then st else FoldEntry(FoldUpTo(st, mmap, k - 1, hhdm), mmap[k - 1], k - 1, hhdm)
  }

  /** Over the whole fold the object size never changes and the base never
      rises; a list whose object size is not 0x1000 keeps its descriptor. */
  lemma {:induction false} FoldKeepsShape(st: PmmState, mmap: seq<MMapEntry>, k: nat, hhdm: nat)
    requires k <= |mmap|
    ensures FoldUpTo(st, mmap, k, hhdm).desc.objectSize == st.desc.objectSize
    ensures FoldUpTo(st, mmap, k, hhdm).desc.base <= st.desc.base
    ensures st.desc.objectSize != PAGE_SIZE ==> FoldUpTo(st, mmap, k, hhdm).desc == st.desc
    decreases k
  {
    if k > 0 {
      FoldKeepsShape(st, mmap, k - 1, hhdm);
    }
  }

  /** A freshly initialised list is never dirty, so linking it never fails
      with -2: only an object-size mismatch makes a link fail. */
  lemma FreshLinkNeverBothDirty(d: Desc, eb: nat, ec: nat)
    ensures !Link(d, Desc(eb, ec, eb, PAGE_SIZE)).BothDirty?
    ensures Link(d, Desc(eb, ec, eb, PAGE_SIZE)).SizeMismatch? <==> d.objectSize != PAGE_SIZE
  {
  }

  /** `Arc_InitPMM`: take over the boot stage's descriptor, move it and its
      chain into the HHDM, then fold in the memory map. */
  method Init(pmm: Pmm, boot: FreelistMeta, ram: Ram, mmap: seq<MMapEntry>, entries: int, hhdm: nat,
              ghost nodes: seq<nat>)
    requires pmm.newList != pmm.combined && boot != pmm.newList && boot != pmm.combined
    requires entries <= |mmap|
    requires BootChain(ram.words, nodes, hhdm) && nodes[0] == boot.head + hhdm
    modifies pmm, boot, pmm.newList, pmm.combined, ram
    ensures boot.View() == Desc(old(boot.base) + hhdm, old(boot.ciel) + hhdm, old(boot.head) + hhdm, old(boot.objectSize))
    ensures pmm.physicalMem == boot || pmm.physicalMem == pmm.combined
    ensures var st := FoldUpTo(PmmState(boot.View(), RebaseWords(old(ram.words), nodes, |nodes| - 1, hhdm)),
                               mmap, Max0(entries), hhdm);
      pmm.physicalMem.View() == st.desc && ram.words == st.mem
  {
    pmm.physicalMem := boot;
    RebaseBootList(boot, ram, hhdm, nodes);
    FoldMemoryMap(pmm, ram, mmap, entries, hhdm);
  }

  /** The first half of `Arc_InitPMM`: add `hhdm` to the descriptor's
      base, ceiling and head, then walk the chain from the new head,
      rewriting each non-NULL link to its low 32 bits plus `hhdm`, until a
      node whose link is NULL. */
  method RebaseBootList(boot: FreelistMeta, ram: Ram, hhdm: nat, ghost nodes: seq<nat>)
    requires BootChain(ram.words, nodes, hhdm) && nodes[0] == boot.head + hhdm
    modifies boot, ram
    ensures boot.View() == Desc(old(boot.base) + hhdm, old(boot.ciel) + hhdm, old(boot.head) + hhdm, old(boot.objectSize))
    ensures ram.words == RebaseWords(old(ram.words), nodes, |nodes| - 1, hhdm)
  {
    boot.base := boot.base + hhdm;
    boot.ciel := boot.ciel + hhdm;
    boot.head := boot.head + hhdm;

    RebaseChain(ram, boot.head, hhdm, nodes);
  }

  /** The walk of `Arc_InitPMM` over the boot chain from `head`: each
      non-NULL link becomes its low 32 bits plus `hhdm`; the walk stops at
      the node whose link is NULL. */
  method RebaseChain(ram: Ram, head: nat, hhdm: nat, ghost nodes: seq<nat>)
    requires BootChain(ram.words, nodes, hhdm) && nodes[0] == head
    modifies ram
    ensures ram.words == RebaseWords(old(ram.words), nodes, |nodes| - 1, hhdm)
  {
    ghost var original := ram.words;
    var current := head;
    ghost var j := 0;
    RebaseStep(original, nodes, j, hhdm);
    while ram.words[current] != NULL
      invariant 0 <= j < |nodes| && current == nodes[j]
      invariant ram.words == RebaseWords(original, nodes, j, hhdm)
      invariant current in ram.words && ram.words[current] == original[current]
      invariant ram.words[current] == NULL <==> j == |nodes| - 1
      decreases |nodes| - j
    {
      RebaseStep(original, nodes, j, hhdm);
      ghost var after := RebaseWords(original, nodes, j + 1, hhdm);
      var next := ram.words[current];
      next := next % U32_LIMIT;
      next := next + hhdm;
      ram.words := ram.words[current := next];
      assert ram.words == after;
      current := next;
      j := j + 1;
      RebaseStep(original, nodes, j, hhdm);
    }
  }

  /** The second half of `Arc_InitPMM`: for each memory-map entry that is
      not skipped, initialise `new_list` over the entry's HHDM range and
      link it into the current descriptor, which becomes `combined` when
      the link succeeds. */
  method FoldMemoryMap(pmm: Pmm, ram: Ram, mmap: seq<MMapEntry>, entries: int, hhdm: nat)
    requires pmm.newList != pmm.combined && pmm.physicalMem != null
    requires pmm.physicalMem != pmm.newList && pmm.physicalMem != pmm.combined
    requires entries <= |mmap|
    modifies pmm, pmm.newList, pmm.combined, ram
    ensures pmm.physicalMem == old(pmm.physicalMem) || pmm.physicalMem == pmm.combined
    ensures var st := FoldUpTo(PmmState(old(pmm.physicalMem.View()), old(ram.words)), mmap, Max0(entries), hhdm);
      pmm.physicalMem.View() == st.desc && ram.words == st.mem
  {
    ghost var start := PmmState(pmm.physicalMem.View(), ram.words);
    ghost var first := pmm.physicalMem;
    var i := 0;
    while i < entries
      invariant 0 <= i <= Max0(entries)
      invariant pmm.physicalMem == first || pmm.physicalMem == pmm.combined
      invariant pmm.physicalMem.View() == FoldUpTo(start, mmap, i, hhdm).desc
      invariant ram.words == FoldUpTo(start, mmap, i, hhdm).mem
      modifies pmm, pmm.newList, pmm.combined, ram
    {
      FoldOne(pmm, ram, mmap[i], i, hhdm);
      i := i + 1;
    }
  }

  /** One round of the loop over the memory map: the `continue` cases
      return at once; otherwise `new_list` is initialised over the entry's
      HHDM range and linked into the current descriptor. */
  method FoldOne(pmm: Pmm, ram: Ram, entry: MMapEntry, i: nat, hhdm: nat)
    requires pmm.newList != pmm.combined && pmm.physicalMem != null && pmm.physicalMem != pmm.newList
    modifies pmm, pmm.newList, pmm.combined, ram
    ensures pmm.physicalMem == old(pmm.physicalMem) || pmm.physicalMem == pmm.combined
    ensures var st := FoldEntry(PmmState(old(pmm.physicalMem.View()), old(ram.words)), entry, i, hhdm);
      pmm.physicalMem.View() == st.desc && ram.words == st.mem
  {
    var entryBase := entry.base + hhdm;
    var entryCiel := entry.base + entry.len + hhdm;
    if i == 0 {
      return;
    }
    if entry.kind != MEMORY_AVAILABLE {
      return;
    }
    if entryBase >= pmm.physicalMem.base && entryCiel <= pmm.physicalMem.ciel {
      return;
    }
    if entryBase <= pmm.physicalMem.base && pmm.physicalMem.base < entryCiel {
      return;
    }

    var _ := InitializeFreelist(entryBase, entryCiel, PAGE_SIZE, pmm.newList, ram);
    var code := ListLink(pmm.physicalMem, pmm.newList, pmm.combined);
    if code != 0 {
      return;
    }
    pmm.physicalMem := pmm.combined;
  }
}
