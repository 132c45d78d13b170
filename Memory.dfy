/** The memory the allocators keep their bookkeeping in.

    Every allocator of the kernel stores the link of a free block in the
    block's own first machine word. The model keeps exactly those words: a
    map from a block's address to the value of its first word. Address 0 is
    NULL. Addresses are naturals, because the source does byte arithmetic on
    `void *` and `uintptr_t`. */
module Memory {

  /** One past the largest 64-bit value (`uintptr_t`, `size_t`). */
  const WORD_LIMIT: nat := 0x1_0000_0000_0000_0000

  /** One past the largest 32-bit value (`UINT32_MAX + 1`). */
  const U32_LIMIT: nat := 0x1_0000_0000

  const NULL: nat := 0

  /** The words of memory that the allocators read and write. It is one
      object because every descriptor threads its chain through the same
      memory. */
  class Ram {
    var words: map<nat, nat>

    constructor (initial: map<nat, nat>)
      ensures words == initial
    {
      words := initial;
    }
  }

  /** Address of the `k`-th block of `size` bytes from `base`. */
  function SlotAddr(base: nat, size: nat, k: nat): nat
  {
    base + k * size
  }

  /** The first `n` block addresses from `base`, in ascending order. */
  function Slots(base: nat, size: nat, n: nat): (s: seq<nat>)
    ensures |s| == n
    ensures forall k :: 0 <= k < n ==> s[k] == SlotAddr(base, size, k)
  {
    seq(n, k requires 0 <= k < n => SlotAddr(base, size, k))
  }

  /** The node that follows position `i` of a chain that continues into `last`. */
  function Succ(nodes: seq<nat>, i: nat, last: nat): nat
    requires i < |nodes|
  {
    if i + 1 < |nodes| then nodes[i + 1] else last
  }

  /** `nodes` is threaded through `mem`: the first word of each node holds
      the next node, and that of the last node holds `last`. */
  ghost predicate Linked(mem: map<nat, nat>, nodes: seq<nat>, last: nat)
  {
    forall i {:trigger mem[nodes[i]]} {:trigger nodes[i] in mem} :: 0 <= i < |nodes| ==> nodes[i] in mem && mem[nodes[i]] == Succ(nodes, i, last)
  }

  /** `k` steps can be taken from `a`: every node visited is a non-NULL
      address whose word can be read. */
  ghost predicate Walkable(mem: map<nat, nat>, a: nat, k: nat)
    decreases k
  {
    k == 0 || (a != NULL && a in mem && Walkable(mem, mem[a], k - 1))
  }

  /** The address reached after following `k` links from `a`. */
  ghost function Walk(mem: map<nat, nat>, a: nat, k: nat): nat
    requires Walkable(mem, a, k)
    decreases k
  {
    if k == 0 then a else Walk(mem, mem[a], k - 1)
  }

  /** The `k` nodes visited when following `k` links from `a`. */
  ghost function Nodes(mem: map<nat, nat>, a: nat, k: nat): (s: seq<nat>)
    requires Walkable(mem, a, k)
    ensures |s| == k
    decreases k
  {
    if k == 0 then [] else [a] + Nodes(mem, mem[a], k - 1)
  }

  /** Following the links of a threaded chain visits exactly its nodes and
      arrives where the chain ends. */
  lemma {:induction false} LinkedWalk(mem: map<nat, nat>, nodes: seq<nat>, last: nat)
    requires Linked(mem, nodes, last)
    requires forall i :: 0 <= i < |nodes| ==> nodes[i] != NULL
    ensures |nodes| > 0 ==> Walkable(mem, nodes[0], |nodes|)
    ensures |nodes| > 0 ==> Nodes(mem, nodes[0], |nodes|) == nodes
    ensures |nodes| > 0 ==> Walk(mem, nodes[0], |nodes|) == last
    decreases |nodes|
  {
    if |nodes| > 1 {
      var rest := nodes[1..];
      assert Linked(mem, rest, last) by {
        forall i | 0 <= i < |rest|
          ensures rest[i] in mem && mem[rest[i]] == Succ(rest, i, last)
        {
          assert rest[i] == nodes[i + 1];
          assert mem[nodes[i + 1]] == Succ(nodes, i + 1, last);
        }
      }
      LinkedWalk(mem, rest, last);
      assert mem[nodes[0]] == rest[0];
      assert nodes == [nodes[0]] + rest;
    } else if |nodes| == 1 {
      assert mem[nodes[0]] == last;
      assert Walkable(mem, mem[nodes[0]], 0);
    }
  }

  /** Any prefix of a chain is itself a chain that continues into the next node. */
  lemma {:induction false} LinkedPrefix(mem: map<nat, nat>, nodes: seq<nat>, last: nat, k: nat)
    requires Linked(mem, nodes, last)
    requires k < |nodes|
    ensures Linked(mem, nodes[..k], nodes[k])
  {
    var p := nodes[..k];
    forall i | 0 <= i < |p|
      ensures p[i] in mem && mem[p[i]] == Succ(p, i, nodes[k])
    {
      assert p[i] == nodes[i];
      assert mem[nodes[i]] == Succ(nodes, i, last);
    }
  }

  /** The memory after writing, for every `k < n` in ascending order, the
      address of block `k + 1` into the first word of block `k`. */
  function ThreadSlots(mem: map<nat, nat>, base: nat, size: nat, n: nat): map<nat, nat>
    decreases n
  {
    if n == 0 then mem
    else ThreadSlots(mem, base, size, n - 1)[SlotAddr(base, size, n - 1) := SlotAddr(base, size, n)]
  }

  /** Threading writes only block addresses and leaves every other word as it was. */
  lemma {:induction false} ThreadSlotsFrame(mem: map<nat, nat>, base: nat, size: nat, n: nat, a: nat)
    requires forall k :: 0 <= k < n ==> a != SlotAddr(base, size, k)
    ensures a in ThreadSlots(mem, base, size, n) <==> a in mem
    ensures a in mem ==> ThreadSlots(mem, base, size, n)[a] == mem[a]
    decreases n
  {
    if n > 0 {
      ThreadSlotsFrame(mem, base, size, n - 1, a);
    }
  }

  /** With blocks of positive size the threaded blocks form one chain,
      `base, base + size, ..., base + (n - 1) * size`, whose last block links
      to `base + n * size`. */
  lemma {:induction false} ThreadSlotsChain(mem: map<nat, nat>, base: nat, size: nat, n: nat)
    requires size > 0
    ensures Linked(ThreadSlots(mem, base, size, n), Slots(base, size, n), SlotAddr(base, size, n))
    decreases n
  {
    if n > 0 {
      var prev := ThreadSlots(mem, base, size, n - 1);
      var cur := ThreadSlots(mem, base, size, n);
      ThreadSlotsChain(mem, base, size, n - 1);
      var s := Slots(base, size, n);
      var sp := Slots(base, size, n - 1);
      forall i | 0 <= i < n
        ensures s[i] in cur && cur[s[i]] == Succ(s, i, SlotAddr(base, size, n))
      {
        if i < n - 1 {
          assert sp[i] == s[i];
          assert prev[sp[i]] == Succ(sp, i, SlotAddr(base, size, n - 1));
          assert SlotAddr(base, size, i) < SlotAddr(base, size, n - 1) by {
            MulStrict(i, n - 1, size);
          }
        }
      }
    }
  }

  /** Blocks with a larger index lie at larger addresses. */
  lemma MulStrict(i: nat, j: nat, size: nat)
    requires i < j && size > 0
    ensures i * size < j * size
  {
    assert j * size == i * size + (j - i) * size;
  }

  /** Threading blocks whose links already hold the threaded values changes nothing. */
  lemma {:induction false} ThreadSlotsNoop(mem: map<nat, nat>, base: nat, size: nat, n: nat)
    requires forall k :: 0 <= k < n ==>
      SlotAddr(base, size, k) in mem && mem[SlotAddr(base, size, k)] == SlotAddr(base, size, k + 1)
    ensures ThreadSlots(mem, base, size, n) == mem
    decreases n
  {
    if n > 0 {
      ThreadSlotsNoop(mem, base, size, n - 1);
      assert mem[SlotAddr(base, size, n - 1)] == SlotAddr(base, size, n);
    }
  }
}
