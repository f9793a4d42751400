/** The aggregation trie of `ips_to_subnets.py`: a binary prefix trie over
    32-bit addresses whose nodes count how many stores passed through them. */
module Trie {
  import opened Wrappers
  import opened Bits
  import opened Cidr

  /** One `Node` of the source. `rank` is the prefix length; the node's base
      address is `parentPrefix + PrefixInt()`; `fill` counts the stores that
      went through the node (set to 1 at a rank-32 leaf). The source's
      `bit_offset` is `Pow2(31 - rank)` for ranks up to 31 and 0 at rank 32;
      it is the bit `Store` tests and the amount a 1-child adds to the base. */
  datatype Node = Node(
    rank: PrefixLen,
    child0: Option<Node>,
    child1: Option<Node>,
    fill: nat,
    parentPrefix: nat,
    bitSet: bool)
  {
    /** The node's own contribution to its base address: the bit it stands
        for, unless it is the root or a 0-child. */
    function PrefixInt(): nat {
      if rank == 0 || !bitSet then 0 else Pow2(32 - rank)
    }

    function Base(): nat {
      parentPrefix + PrefixInt()
    }

    predicate InRange(x: nat) {
      Base() <= x < Base() + Size(rank)
    }

    function Child(bit: bool): Option<Node> {
      if bit then child1 else child0
    }
  }

  /** `Node(rank, parent_prefix, bit_set)`: a node with no children and an
      empty count. */
  function NewNode(rank: PrefixLen, parentPrefix: nat, bitSet: bool): Node {
    Node(rank, None, None, 0, parentPrefix, bitSet)
  }

  predicate Fresh(n: Node) {
    n.fill == 0 && n.child0.None? && n.child1.None?
  }

  predicate IsChild(n: Node, c: Node, bit: bool) {
    c.rank == n.rank + 1 && c.parentPrefix == n.Base() && c.bitSet == bit
  }

  /** The links of the trie: a rank-32 node has no children, and a child is
      one rank deeper, has its parent's base address as parent prefix and is
      flagged as a 1-child exactly when it is `child_1`. */
  predicate Shape(n: Node) {
    && (n.rank == 32 ==> n.child0.None? && n.child1.None?)
    && (n.child0.Some? ==>
          n.rank < 32 && IsChild(n, n.child0.value, false) && Shape(n.child0.value))
    && (n.child1.Some? ==>
          n.rank < 32 && IsChild(n, n.child1.value, true) && Shape(n.child1.value))
  }

  /** The invariant of every node the program builds: its base address has
      its low 32 - rank bits zero, its block lies in the address space, and
      its links are well formed. */
  predicate Valid(n: Node) {
    Aligned(n.Base(), 32 - n.rank) && n.Base() + Size(n.rank) <= AddressSpace && Shape(n)
  }

  /** Half the block of a rank-`r` node: the block of each of its children. */
  function Half(r: PrefixLen): (h: nat)
    requires r < 32
    ensures h == Size(r + 1) && Size(r) == 2 * h
  {
    Pow2(31 - r)
  }

  /** A child of a valid node is valid: a 0-child's block is the lower half
      of its parent's block and a 1-child's block the upper half. */
  lemma ChildGeometry(n: Node, c: Node, bit: bool)
    requires Aligned(n.Base(), 32 - n.rank) && n.Base() + Size(n.rank) <= AddressSpace
    requires n.rank < 32 && IsChild(n, c, bit) && Shape(c)
    ensures Valid(c)
    ensures c.Base() == n.Base() + (if bit then Half(n.rank) else 0)
  {
    HalvesAligned(n.Base(), 31 - n.rank);
  }

  lemma ChildValid(n: Node, bit: bool)
    requires Valid(n) && n.Child(bit).Some?
    ensures var c := n.Child(bit).value;
      && n.rank < 32 && IsChild(n, c, bit) && Valid(c)
      && c.Base() == n.Base() + (if bit then Half(n.rank) else 0)
  {
    ChildGeometry(n, n.Child(bit).value, bit);
  }

  /** `Node(0)`: the root of an empty trie, covering the whole address
      space. */
  function NewRoot(): (r: Node)
    ensures Valid(r) && Fresh(r) && r.rank == 0
    ensures r.Base() == 0 && forall x: nat :: x < AddressSpace ==> r.InRange(x)
  {
    Pow2Is32();
    ZeroAligned(32);
    NewNode(0, 0, false)
  }

  /** The child `store_address_int` descends into: the existing one, or a new
      node whose parent prefix is the parent's base address. */
  function ChildFor(n: Node, bit: bool): (c: Node)
    requires Valid(n) && n.rank < 32
    ensures Valid(c) && IsChild(n, c, bit)
    ensures c.Base() == n.Base() + (if bit then Half(n.rank) else 0)
    ensures n.Child(bit).None? ==> Fresh(c)
    ensures n.Child(bit).Some? ==> c == n.Child(bit).value
  {
    if n.Child(bit).Some? then
      ChildValid(n, bit);
      n.Child(bit).value
    else
      var c := NewNode(n.rank + 1, n.Base(), bit);
      ChildGeometry(n, c, bit);
      c
  }

  /** `store_address_int`: follow the bits of `a` from bit 31 - rank down,
      creating missing children, set the rank-32 leaf's fill to 1 and add 1 to
      the fill of every node above it. Bits of `a` above bit 31 are never
      looked at. Only the children and the fill change. */
  function Store(n: Node, a: nat): (r: Node)
    requires Valid(n)
    ensures Valid(r)
    ensures r == n.(child0 := r.child0, child1 := r.child1, fill := r.fill)
    ensures r.fill == if n.rank == 32 then 1 else n.fill + 1
    decreases 32 - n.rank
  {
    if n.rank == 32 then
      n.(fill := 1)
    else if BitSet(a, 31 - n.rank) then
      n.(child1 := Some(Store(ChildFor(n, true), a)), fill := n.fill + 1)
    else
      n.(child0 := Some(Store(ChildFor(n, false), a)), fill := n.fill + 1)
  }

  /** One step of `store_address_int` above the leaves: the store goes into
      the child the bit selects, the other child is untouched and the fill
      grows by one. */
  lemma StoreStep(n: Node, a: nat, bit: bool)
    requires Valid(n) && n.rank < 32 && bit == BitSet(a, 31 - n.rank)
    ensures bit ==> Store(n, a) == n.(child1 := Some(Store(ChildFor(n, true), a)), fill := n.fill + 1)
    ensures !bit ==> Store(n, a) == n.(child0 := Some(Store(ChildFor(n, false), a)), fill := n.fill + 1)
  {
  }

  /** The addresses stored under `n`: the base addresses of its rank-32
      nodes. */
  function Leaves(n: Node): set<nat> {
    if n.rank == 32 then {n.Base()} else LeavesOf(n.child0) + LeavesOf(n.child1)
  }

  function LeavesOf(o: Option<Node>): set<nat> {
    match o
    case Some(c) => Leaves(c)
    case None => {}
  }

  /** Every stored address lies in the block of every node above it. */
  lemma {:induction false} LeavesInRange(n: Node)
    requires Valid(n)
    ensures forall x :: x in Leaves(n) ==> n.InRange(x)
  {
    if n.rank < 32 {
      forall bit: bool, x | x in LeavesOf(n.Child(bit))
        ensures n.InRange(x)
      {
        var c := n.Child(bit).value;
        var h := Half(n.rank);
        ChildValid(n, bit);
        LeavesInRange(c);
        assert c.InRange(x);
        assert Size(c.rank) == h;
      }
      assert Leaves(n) == LeavesOf(n.Child(false)) + LeavesOf(n.Child(true));
    }
  }

  /** What a child stores, its parent stores. */
  lemma ChildLeavesStored(n: Node, bit: bool)
    requires Shape(n) && n.Child(bit).Some?
    ensures Leaves(n.Child(bit).value) <= Leaves(n)
  {
  }

  /** The children of a node store disjoint halves of its block. */
  lemma ChildLeavesDisjoint(n: Node)
    requires Valid(n) && n.rank < 32
    ensures LeavesOf(n.child0) !! LeavesOf(n.child1)
  {
    var h := Half(n.rank);
    if n.child0.Some? && n.child1.Some? {
      ChildValid(n, false);
      ChildValid(n, true);
      LeavesInRange(n.child0.value);
      LeavesInRange(n.child1.value);
    }
  }

  /** A node whose block holds x has x with its low 32 - rank bits cleared
      as its base address. */
  lemma BaseIsClearedAddress(n: Node, x: nat)
    requires Valid(n) && n.InRange(x)
    ensures n.Base() == x - x % Size(n.rank)
  {
    BlockStart(n.Base(), x, 32 - n.rank);
  }

  /** A leaf whose block holds x stores exactly x. */
  lemma LeafHolds(n: Node, x: nat)
    requires n.rank == 32 && n.InRange(x)
    ensures n.Base() == x && Leaves(n) == {x}
  {
  }

  /** Where `store_address_int` goes next: bit 31 - rank of `a` is set exactly
      when the low 32 bits of `a` lie in the upper half of the block, so the
      child it descends into holds them in its block. */
  lemma DescentFollowsAddress(n: Node, a: nat)
    requires Valid(n) && n.rank < 32 && n.InRange(Low32(a))
    ensures BitSet(a, 31 - n.rank) <==> Low32(a) >= n.Base() + Half(n.rank)
    ensures ChildFor(n, BitSet(a, 31 - n.rank)).InRange(Low32(a))
  {
    BitOfLow32(a, 31 - n.rank);
    HalfByBit(n.Base(), Low32(a), 31 - n.rank);
  }

  /** Storing `a` adds exactly its low 32 bits to the stored addresses. */
  lemma {:induction false} StoreLeaves(n: Node, a: nat)
    requires Valid(n) && n.InRange(Low32(a))
    ensures Leaves(Store(n, a)) == Leaves(n) + {Low32(a)}
    decreases 32 - n.rank
  {
    if n.rank == 32 {
      LeafHolds(n, Low32(a));
    } else {
      var bit := BitSet(a, 31 - n.rank);
      DescentFollowsAddress(n, a);
      StoreLeaves(ChildFor(n, bit), a);
      ChildLeaves(n, bit, Low32(a));
      LeavesLift(n, a, bit);
    }
  }

  /** One step of a store seen from the node: the child the address bit
      selects now exists and holds what that side held plus the address, the
      other child is the same as before, and the fill grows by one. */
  lemma StoreDescends(n: Node, a: nat)
    requires Valid(n) && n.rank < 32 && n.InRange(Low32(a))
    ensures var bit := BitSet(a, 31 - n.rank);
      && Store(n, a).Child(bit).Some?
      && Leaves(Store(n, a).Child(bit).value) == LeavesOf(n.Child(bit)) + {Low32(a)}
      && Store(n, a).Child(!bit) == n.Child(!bit)
      && Store(n, a).fill == n.fill + 1
  {
    var bit := BitSet(a, 31 - n.rank);
    StoreStep(n, a, bit);
    DescentFollowsAddress(n, a);
    StoreLeaves(ChildFor(n, bit), a);
    ChildLeaves(n, bit, Low32(a));
  }

  /** The child a store descends into holds what the node holds on that side,
      or, when it is new, at most the address being stored. */
  lemma ChildLeaves(n: Node, bit: bool, x: nat)
    requires Valid(n) && n.rank < 32 && ChildFor(n, bit).InRange(x)
    ensures Leaves(ChildFor(n, bit)) <= LeavesOf(n.Child(bit)) + {x}
    ensures LeavesOf(n.Child(bit)) <= Leaves(ChildFor(n, bit))
  {
    var c := ChildFor(n, bit);
    if c.rank == 32 {
      LeafHolds(c, x);
    }
  }

  /** A store changes the stored addresses only on the side it descends into. */
  lemma LeavesLift(n: Node, a: nat, bit: bool)
    requires Valid(n) && n.rank < 32 && bit == BitSet(a, 31 - n.rank)
    ensures bit ==> Leaves(Store(n, a)) == LeavesOf(n.child0) + Leaves(Store(ChildFor(n, true), a))
    ensures !bit ==> Leaves(Store(n, a)) == Leaves(Store(ChildFor(n, false), a)) + LeavesOf(n.child1)
  {
    StoreStep(n, a, bit);
  }

  /** The node `store_address_int` reaches for address x, if the trie has it. */
  function Find(n: Node, x: nat): (r: Option<Node>)
    requires Shape(n)
    ensures r.Some? ==> r.value.rank == 32
    decreases 32 - n.rank
  {
    if n.rank == 32 then Some(n)
    else
      var o := n.Child(BitSet(x, 31 - n.rank));
      if o.Some? then Find(o.value, x) else None
  }

  /** The nodes of `n` on the bit path of x, from `n` down to the last one
      that exists. */
  function PathTo(n: Node, x: nat): (p: seq<Node>)
    requires Shape(n)
    ensures 1 <= |p| <= 33 - n.rank && p[0] == n
    ensures forall i :: 0 <= i < |p| ==> p[i].rank == n.rank + i && Shape(p[i])
    decreases 32 - n.rank
  {
    if n.rank == 32 then [n]
    else
      var o := n.Child(BitSet(x, 31 - n.rank));
      if o.Some? then [n] + PathTo(o.value, x) else [n]
  }

  /** After storing `a` its path runs all the way down to rank 32: every node
      on it has the low 32 bits of `a` in its block, with base address equal
      to them with the low 32 - rank bits cleared, and the path ends at the
      leaf `Find` reaches, whose base address is the stored address and whose
      fill is 1. */
  lemma StorePath(n: Node, a: nat)
    requires Valid(n) && n.InRange(Low32(a))
    ensures var p := PathTo(Store(n, a), Low32(a));
      && |p| == 33 - n.rank
      && (forall i :: 0 <= i < |p| ==>
            p[i].InRange(Low32(a)) && p[i].Base() == Low32(a) - Low32(a) % Size(p[i].rank))
      && p[|p| - 1].Base() == Low32(a) && p[|p| - 1].fill == 1
      && Find(Store(n, a), Low32(a)) == Some(p[|p| - 1])
  {
    var x := Low32(a);
    var p := PathTo(Store(n, a), x);
    StorePathInRange(n, a);
    forall i | 0 <= i < |p|
      ensures p[i].InRange(x) && p[i].Base() == x - x % Size(p[i].rank)
    {
      ClearedOnPath(p[i], x);
    }
    LeafHolds(p[|p| - 1], x);
    FindIsPathEnd(Store(n, a), x);
  }

  /** Along a path the base address is the address with its low bits
      cleared, whatever the block's alignment comes from. */
  lemma ClearedOnPath(m: Node, x: nat)
    requires m.InRange(x) && m.Base() % Size(m.rank) == 0
    ensures m.Base() == x - x % Size(m.rank)
  {
    DivisibleBlockStart(m.Base(), x, Size(m.rank));
  }

  /** Every node of `p` holds x in its block, and its base address is a
      multiple of its block size. */
  predicate HoldsAll(p: seq<Node>, x: nat) {
    forall i :: 0 <= i < |p| ==> p[i].InRange(x) && p[i].Base() % Size(p[i].rank) == 0
  }

  lemma HoldsCons(m: Node, p: seq<Node>, x: nat)
    requires m.InRange(x) && m.Base() % Size(m.rank) == 0 && HoldsAll(p, x)
    ensures HoldsAll([m] + p, x)
  {
  }

  lemma {:induction false} StorePathInRange(n: Node, a: nat)
    requires Valid(n) && n.InRange(Low32(a))
    ensures var p := PathTo(Store(n, a), Low32(a));
      |p| == 33 - n.rank && HoldsAll(p, Low32(a)) && p[|p| - 1].fill == 1
    decreases 32 - n.rank
  {
    AlignedIsDivisible(n.Base(), 32 - n.rank);
    if n.rank < 32 {
      var bit := BitSet(a, 31 - n.rank);
      var c := ChildFor(n, bit);
      DescentFollowsAddress(n, a);
      StorePathInRange(c, a);
      PathLift(n, a, bit);
      HoldsCons(Store(n, a), PathTo(Store(c, a), Low32(a)), Low32(a));
    }
  }

  /** Following x from the node a store of `a` rebuilt enters the child the
      store rebuilt. */
  lemma PathLift(n: Node, a: nat, bit: bool)
    requires Valid(n) && n.rank < 32 && bit == BitSet(a, 31 - n.rank)
    ensures PathTo(Store(n, a), Low32(a))
      == [Store(n, a)] + PathTo(Store(ChildFor(n, bit), a), Low32(a))
  {
    BitOfLow32(a, 31 - n.rank);
    StoreStep(n, a, bit);
  }

  /** A path that reaches rank 32 ends at the node `Find` returns. */
  lemma {:induction false} FindIsPathEnd(n: Node, x: nat)
    requires Shape(n) && |PathTo(n, x)| == 33 - n.rank
    ensures Find(n, x) == Some(PathTo(n, x)[32 - n.rank])
    decreases 32 - n.rank
  {
    if n.rank < 32 {
      FindIsPathEnd(n.Child(BitSet(x, 31 - n.rank)).value, x);
    }
  }

  /** Storing commutes: the trie does not depend on the order of two stores,
      whether or not the two addresses are equal. */
  lemma {:induction false} StoreCommutes(n: Node, a: nat, b: nat)
    requires Valid(n)
    ensures Store(Store(n, a), b) == Store(Store(n, b), a)
    decreases 32 - n.rank
  {
    if n.rank < 32 {
      var ba, bb := BitSet(a, 31 - n.rank), BitSet(b, 31 - n.rank);
      if ba == bb {
        StoreCommutes(ChildFor(n, ba), a, b);
        StoreThrough(n, a, b, ba);
        StoreThrough(n, b, a, ba);
      } else if ba {
        StoreApart(n, a, b);
      } else {
        StoreApart(n, b, a);
      }
    }
  }

  /** Two stores that take the same child compose in that child. */
  lemma StoreThrough(n: Node, a: nat, b: nat, bit: bool)
    requires Valid(n) && n.rank < 32
    requires bit == BitSet(a, 31 - n.rank) && bit == BitSet(b, 31 - n.rank)
    ensures var c := ChildFor(n, bit);
      Store(Store(n, a), b)
        == if bit then n.(child1 := Some(Store(Store(c, a), b)), fill := n.fill + 2)
           else n.(child0 := Some(Store(Store(c, a), b)), fill := n.fill + 2)
  {
    var c := ChildFor(n, bit);
    var na := Store(n, a);
    StoreStep(n, a, bit);
    assert ChildFor(na, bit) == Store(c, a);
    StoreStep(na, b, bit);
  }

  /** Two stores that take different children update one child each, in
      either order. */
  lemma StoreApart(n: Node, a: nat, b: nat)
    requires Valid(n) && n.rank < 32 && BitSet(a, 31 - n.rank) && !BitSet(b, 31 - n.rank)
    ensures Store(Store(n, a), b) == Store(Store(n, b), a)
  {
    StoreOneThenZero(n, a, b);
    StoreZeroThenOne(n, a, b);
  }

  lemma StoreOneThenZero(n: Node, a: nat, b: nat)
    requires Valid(n) && n.rank < 32 && BitSet(a, 31 - n.rank) && !BitSet(b, 31 - n.rank)
    ensures Store(Store(n, a), b)
      == n.(child1 := Some(Store(ChildFor(n, true), a)),
            child0 := Some(Store(ChildFor(n, false), b)),
            fill := n.fill + 2)
  {
    var na := Store(n, a);
    StoreStep(n, a, true);
    assert ChildFor(na, false) == ChildFor(n, false);
    StoreStep(na, b, false);
  }

  lemma StoreZeroThenOne(n: Node, a: nat, b: nat)
    requires Valid(n) && n.rank < 32 && BitSet(a, 31 - n.rank) && !BitSet(b, 31 - n.rank)
    ensures Store(Store(n, b), a)
      == n.(child1 := Some(Store(ChildFor(n, true), a)),
            child0 := Some(Store(ChildFor(n, false), b)),
            fill := n.fill + 2)
  {
    var nb := Store(n, b);
    StoreStep(n, b, false);
    assert ChildFor(nb, true) == ChildFor(n, true);
    StoreStep(nb, a, true);
  }

  /** The shape a trie has once something was stored under each node: every
      child has a positive fill and stores something, a rank-32 child has fill
      exactly 1, and a node with a positive fill stores something. */
  predicate Populated(n: Node) {
    && (n.fill >= 1 ==> Leaves(n) != {})
    && (n.child0.Some? ==> PopulatedChild(n.child0.value) && Populated(n.child0.value))
    && (n.child1.Some? ==> PopulatedChild(n.child1.value) && Populated(n.child1.value))
  }

  predicate PopulatedChild(c: Node) {
    c.fill >= 1 && Leaves(c) != {} && (c.rank == 32 ==> c.fill == 1)
  }

  /** Every store leaves the trie populated and holding something. */
  lemma {:induction false} StorePopulated(n: Node, a: nat)
    requires Valid(n) && (Populated(n) || Fresh(n))
    ensures Populated(Store(n, a))
    ensures Leaves(Store(n, a)) != {}
    decreases 32 - n.rank
  {
    if n.rank < 32 {
      var bit := BitSet(a, 31 - n.rank);
      StorePopulated(ChildFor(n, bit), a);
      PopulatedLift(n, a, bit);
    }
  }

  lemma PopulatedLift(n: Node, a: nat, bit: bool)
    requires Valid(n) && (Populated(n) || Fresh(n)) && n.rank < 32 && bit == BitSet(a, 31 - n.rank)
    requires Populated(Store(ChildFor(n, bit), a)) && Leaves(Store(ChildFor(n, bit), a)) != {}
    ensures Populated(Store(n, a)) && Leaves(Store(n, a)) != {}
  {
    StoreStep(n, a, bit);
    LeavesLift(n, a, bit);
  }

  /** The counting invariant of a trie built from distinct addresses: a leaf
      has fill 1 and an inner node's fill is the sum of its children's. */
  predicate Exact(n: Node) {
    && (n.rank == 32 ==> n.fill == 1)
    && (n.rank < 32 ==> n.fill == FillOf(n.child0) + FillOf(n.child1))
    && (n.child0.Some? ==> Exact(n.child0.value))
    && (n.child1.Some? ==> Exact(n.child1.value))
  }

  function FillOf(o: Option<Node>): nat {
    if o.Some? then o.value.fill else 0
  }

  /** Storing an address into a fresh node yields an exact chain. */
  lemma {:induction false} StoreFreshExact(n: Node, a: nat)
    requires Valid(n) && Fresh(n)
    ensures Exact(Store(n, a))
    decreases 32 - n.rank
  {
    if n.rank < 32 {
      var bit := BitSet(a, 31 - n.rank);
      StoreFreshExact(ChildFor(n, bit), a);
      StoreStep(n, a, bit);
    }
  }

  /** Storing an address not yet in the trie keeps the counts exact. */
  lemma {:induction false} StoreExact(n: Node, a: nat)
    requires Valid(n) && Exact(n) && n.InRange(Low32(a)) && Low32(a) !in Leaves(n)
    ensures Exact(Store(n, a))
    decreases 32 - n.rank
  {
    if n.rank == 32 {
      LeafHolds(n, Low32(a));
      assert false;
    } else {
      var bit := BitSet(a, 31 - n.rank);
      DescentFollowsAddress(n, a);
      var c := ChildFor(n, bit);
      if Fresh(c) {
        StoreFreshExact(c, a);
      } else {
        ExistingChildMisses(n, a, bit);
        StoreExact(c, a);
      }
      ExactLift(n, a, bit);
    }
  }

  /** An existing child of an exact node does not hold an address the node
      does not hold, and if that address is in its block it is an inner node. */
  lemma ExistingChildMisses(n: Node, a: nat, bit: bool)
    requires Valid(n) && Exact(n) && n.rank < 32 && Low32(a) !in Leaves(n)
    requires !Fresh(ChildFor(n, bit)) && ChildFor(n, bit).InRange(Low32(a))
    ensures Exact(ChildFor(n, bit)) && Low32(a) !in Leaves(ChildFor(n, bit))
    ensures ChildFor(n, bit).rank < 32
  {
    var c := ChildFor(n, bit);
    if c.rank == 32 {
      LeafHolds(c, Low32(a));
    }
  }

  /** A store into the selected child that keeps it exact and adds one to its
      fill keeps the node exact. */
  lemma ExactLift(n: Node, a: nat, bit: bool)
    requires Valid(n) && Exact(n) && n.rank < 32 && bit == BitSet(a, 31 - n.rank)
    requires Exact(Store(ChildFor(n, bit), a))
    requires Store(ChildFor(n, bit), a).fill == FillOf(n.Child(bit)) + 1
    ensures Exact(Store(n, a))
  {
    StoreStep(n, a, bit);
  }

  /** In an exact trie a node's fill is the number of distinct addresses
      stored under it. */
  lemma {:induction false} ExactFillIsCount(n: Node)
    requires Valid(n) && Exact(n)
    ensures n.fill == |Leaves(n)|
  {
    if n.rank < 32 {
      if n.child0.Some? {
        ChildValid(n, false);
        ExactFillIsCount(n.child0.value);
      }
      if n.child1.Some? {
        ChildValid(n, true);
        ExactFillIsCount(n.child1.value);
      }
      ChildLeavesDisjoint(n);
    }
  }

  /** In an exact trie no node holds more than its block: the fill ratio is
      at most 1. */
  lemma {:induction false} ExactFillBound(n: Node)
    requires Shape(n) && Exact(n)
    ensures n.fill <= Size(n.rank)
  {
    if n.rank < 32 {
      var h := Half(n.rank);
      if n.child0.Some? {
        ExactFillBound(n.child0.value);
      }
      if n.child1.Some? {
        ExactFillBound(n.child1.value);
      }
    }
  }

  /** Storing an address a second time breaks the count: the leaf is set to
      1 again while every node above it is incremented, so the fill grows but
      the stored addresses do not. */
  lemma DuplicateBreaksExact(n: Node, a: nat)
    requires Valid(n) && Exact(n) && n.rank < 32
    requires n.InRange(Low32(a)) && Low32(a) in Leaves(n)
    ensures Leaves(Store(n, a)) == Leaves(n)
    ensures Store(n, a).fill == |Leaves(Store(n, a))| + 1
    ensures !Exact(Store(n, a))
  {
    StoreLeaves(n, a);
    ExactFillIsCount(n);
    var r := Store(n, a);
    if Exact(r) {
      ExactFillIsCount(r);
    }
  }
}
