/** The driver of `ips_to_subnets.py`: `root = Node(0)` and the loop that
    stores every parsed address, then one `iter_subnets` pass. The parser
    (`ipaddress.ip_address` and `packed`) is outside the model: the loop
    receives its results, `None` for a line that did not parse. */
module Aggregate {
  import opened Wrappers
  import opened Bits
  import opened Cidr
  import opened Trie
  import opened Emit
  import opened Dedup

  /** A parsed address as the big-endian integer its `packed` bytes spell. */
  datatype IpAddress = V4(value: nat) | V6(value: nat)

  /** What the parser guarantees of an IPv4 result: it fits in 32 bits. */
  ghost predicate WellParsed(inputs: seq<Option<IpAddress>>) {
    forall v: nat :: Some(V4(v)) in inputs ==> v < AddressSpace
  }

  /** The value one parse result contributes to the loop: `if not address:
      continue` skips `None` and the value 0, and nothing else. With
      `v4Only` an IPv6 result is skipped as well. */
  function Admit(o: Option<IpAddress>, v4Only: bool): seq<nat> {
    match o
    case None => []
    case Some(ip) => if ip.value == 0 || (v4Only && ip.V6?) then [] else [ip.value]
  }

  /** The values passed to `store_address_int`, in input order. */
  function Values(inputs: seq<Option<IpAddress>>, v4Only: bool): (r: seq<nat>)
    ensures |r| <= |inputs|
    ensures forall i :: 0 <= i < |r| ==> r[i] != 0
    ensures v4Only ==> forall i :: 0 <= i < |r| ==> Some(V4(r[i])) in inputs
  {
    if |inputs| == 0 then []
    else Admit(inputs[0], v4Only) + Values(inputs[1..], v4Only)
  }

  /** A value reaches the store loop exactly when it is a non-zero parse
      result of an admitted family. */
  lemma {:induction false} ValuesMember(inputs: seq<Option<IpAddress>>, v4Only: bool, v: nat)
    ensures v in Values(inputs, v4Only) <==>
      v != 0 && (Some(V4(v)) in inputs || (!v4Only && Some(V6(v)) in inputs))
  {
    if |inputs| > 0 {
      assert inputs == [inputs[0]] + inputs[1..];
      ValuesMember(inputs[1..], v4Only, v);
    }
  }

  lemma {:induction false} ValuesConcat(a: seq<Option<IpAddress>>, b: seq<Option<IpAddress>>, v4Only: bool)
    ensures Values(a + b, v4Only) == Values(a, v4Only) + Values(b, v4Only)
  {
    if |a| == 0 {
      assert a + b == b;
    } else {
      assert (a + b)[1..] == a[1..] + b;
      ValuesConcat(a[1..], b, v4Only);
    }
  }

  /** Reordering the parse results reorders the stored values only. */
  lemma {:induction false} ValuesPermutation(s: seq<Option<IpAddress>>, t: seq<Option<IpAddress>>, v4Only: bool)
    requires multiset(s) == multiset(t)
    ensures multiset(Values(s, v4Only)) == multiset(Values(t, v4Only))
    decreases |s|
  {
    if |s| == 0 {
      assert |t| == |multiset(t)| == 0;
    } else {
      var x := s[0];
      assert x in multiset(t);
      var k :| 0 <= k < |t| && t[k] == x;
      var rest := t[..k] + t[k + 1..];
      assert t == t[..k] + [x] + t[k + 1..];
      assert s == [x] + s[1..];
      assert multiset(t) == multiset(t[..k]) + multiset([x]) + multiset(t[k + 1..]);
      assert multiset(rest) == multiset(t[..k]) + multiset(t[k + 1..]);
      assert multiset(s) == multiset([x]) + multiset(s[1..]);
      assert multiset(s[1..]) == multiset(s) - multiset([x]);
      assert multiset(rest) == multiset(t) - multiset([x]);
      ValuesPermutation(s[1..], rest, v4Only);
      ValuesConcat([x], s[1..], v4Only);
      ValuesConcat(t[..k] + [x], t[k + 1..], v4Only);
      ValuesConcat(t[..k], [x], v4Only);
      ValuesConcat(t[..k], t[k + 1..], v4Only);
    }
  }

  /** `store_address_int` for each value in turn. */
  function StoreAll(n: Node, vs: seq<nat>): (r: Node)
    requires Valid(n)
    ensures Valid(r) && r.rank == n.rank && r.Base() == n.Base()
    ensures n.rank < 32 ==> r.fill == n.fill + |vs|
    decreases |vs|
  {
    if |vs| == 0 then n else StoreAll(Store(n, vs[0]), vs[1..])
  }

  lemma {:induction false} StoreAllConcat(n: Node, a: seq<nat>, b: seq<nat>)
    requires Valid(n)
    ensures StoreAll(n, a + b) == StoreAll(StoreAll(n, a), b)
    decreases |a|
  {
    if |a| == 0 {
      assert a + b == b;
    } else {
      assert (a + b)[1..] == a[1..] + b;
      StoreAllConcat(Store(n, a[0]), a[1..], b);
    }
  }

  /** A store can be moved past any run of stores. */
  lemma {:induction false} StorePastAll(n: Node, x: nat, vs: seq<nat>)
    requires Valid(n)
    ensures StoreAll(Store(n, x), vs) == Store(StoreAll(n, vs), x)
    decreases |vs|
  {
    if |vs| > 0 {
      StoreCommutes(n, x, vs[0]);
      StorePastAll(Store(n, vs[0]), x, vs[1..]);
    }
  }

  /** The trie does not depend on the order of the stores, duplicates
      included: the order `imap_unordered` delivers results in does not
      matter. */
  lemma {:induction false} StoreAllPermutation(n: Node, s: seq<nat>, t: seq<nat>)
    requires Valid(n) && multiset(s) == multiset(t)
    ensures StoreAll(n, s) == StoreAll(n, t)
    decreases |s|
  {
    if |s| == 0 {
      assert |t| == |multiset(t)| == 0;
    } else {
      var x := s[0];
      assert x in multiset(t);
      var k :| 0 <= k < |t| && t[k] == x;
      var rest := t[..k] + t[k + 1..];
      assert t == t[..k] + [x] + t[k + 1..];
      assert s == [x] + s[1..];
      assert multiset(t) == multiset(t[..k]) + multiset([x]) + multiset(t[k + 1..]);
      assert multiset(rest) == multiset(t[..k]) + multiset(t[k + 1..]);
      assert multiset(s) == multiset([x]) + multiset(s[1..]);
      assert multiset(s[1..]) == multiset(s) - multiset([x]);
      assert multiset(rest) == multiset(t) - multiset([x]);
      StoreAllPermutation(Store(n, x), s[1..], rest);
      StoreAllConcat(n, t[..k] + [x], t[k + 1..]);
      StoreAllConcat(n, t[..k], [x]);
      StorePastAll(n, x, t[..k]);
      StoreAllConcat(Store(n, x), t[..k], t[k + 1..]);
    }
  }

  /** A root-level node: its block is the whole address space. */
  predicate IsRoot(n: Node) {
    Valid(n) && n.rank == 0
  }

  lemma RootCoversAll(n: Node, x: nat)
    requires IsRoot(n) && x < AddressSpace
    ensures n.InRange(x) && n.Base() == 0
  {
    Pow2Is32();
  }

  /** The empty root holds nothing, exactly counted. */
  lemma EmptyRoot(n: Node)
    requires Fresh(n) && n.rank < 32
    ensures Leaves(n) == {} && Exact(n)
  {
    assert LeavesOf(n.child0) == {};
    assert LeavesOf(n.child1) == {};
  }

  /** The low 32 bits of each value. */
  function Low32s(vs: seq<nat>): (r: set<nat>)
    ensures forall x :: x in r ==> x < AddressSpace
  {
    if |vs| == 0 then {} else {Low32(vs[0])} + Low32s(vs[1..])
  }

  /** Values that already fit in 32 bits are their own low bits. */
  lemma {:induction false} Low32sOfSmall(vs: seq<nat>, x: nat)
    requires forall v: nat :: v in vs ==> v < AddressSpace
    ensures x in Low32s(vs) <==> x in vs
  {
    if |vs| > 0 {
      assert vs == [vs[0]] + vs[1..];
      assert forall v :: v in vs[1..] ==> v in vs;
      assert vs[0] in vs;
      Low32Fits(vs[0]);
      Low32sOfSmall(vs[1..], x);
    }
  }

  /** Storing values at the root adds their low 32 bits to the stored
      addresses, and nothing else. */
  lemma {:induction false} StoreAllLeaves(n: Node, vs: seq<nat>)
    requires IsRoot(n)
    ensures Leaves(StoreAll(n, vs)) == Leaves(n) + Low32s(vs)
    decreases |vs|
  {
    if |vs| > 0 {
      RootCoversAll(n, Low32(vs[0]));
      StoreLeaves(n, vs[0]);
      StoreAllLeaves(Store(n, vs[0]), vs[1..]);
    }
  }

  /** The values after the first of a duplicate-free sequence of unseen
      values are unseen once the first is seen. */
  lemma TailUnseen(vs: seq<nat>, seen: set<nat>)
    requires |vs| > 0 && NoDuplicates(vs)
    requires forall v :: v in vs ==> v < AddressSpace && v !in seen
    ensures NoDuplicates(vs[1..])
    ensures forall w :: w in vs[1..] ==> w < AddressSpace && w !in seen + {vs[0]}
  {
    forall w | w in vs[1..]
      ensures w < AddressSpace && w !in seen + {vs[0]}
    {
      var j :| 0 <= j < |vs[1..]| && vs[1..][j] == w;
      assert vs[j + 1] == w && vs[0] != vs[j + 1];
      assert w in vs;
    }
  }

  /** Storing distinct 32-bit values not yet stored keeps the counts exact. */
  lemma {:induction false} StoreAllExact(n: Node, vs: seq<nat>)
    requires IsRoot(n) && Exact(n) && NoDuplicates(vs)
    requires forall v: nat :: v in vs ==> v < AddressSpace && v !in Leaves(n)
    ensures Exact(StoreAll(n, vs))
    decreases |vs|
  {
    if |vs| > 0 {
      var v := vs[0];
      assert v in vs;
      Low32Fits(v);
      RootCoversAll(n, v);
      StoreExact(n, v);
      StoreLeaves(n, v);
      TailUnseen(vs, Leaves(n));
      StoreAllExact(Store(n, v), vs[1..]);
    }
  }

  lemma {:induction false} StoreAllPopulated(n: Node, vs: seq<nat>)
    requires Valid(n) && (Populated(n) || Fresh(n))
    ensures Populated(StoreAll(n, vs)) || Fresh(StoreAll(n, vs))
    decreases |vs|
  {
    if |vs| > 0 {
      StorePopulated(n, vs[0]);
      StoreAllPopulated(Store(n, vs[0]), vs[1..]);
    }
  }

  /** A root with nothing stored, as `Node(0)` makes: rank 0, base address
      0, no children, fill 0. */
  predicate EmptyRootNode(n: Node) {
    IsRoot(n) && Fresh(n)
  }

  /** From an empty root, the stored addresses are the low 32 bits of the
      values. */
  lemma RootStoreAllLeaves(root: Node, vs: seq<nat>)
    requires EmptyRootNode(root)
    ensures Leaves(StoreAll(root, vs)) == Low32s(vs)
  {
    EmptyRoot(root);
    StoreAllLeaves(root, vs);
    var l := Low32s(vs);
    assert {} + l == l;
  }

  /** The loop as written: every truthy parse result is stored, an IPv6 one
      included, and a value stored twice is counted twice. */
  function DriverAsWritten(root: Node, inputs: seq<Option<IpAddress>>): (r: Node)
    requires EmptyRootNode(root)
    ensures IsRoot(r)
    ensures Leaves(r) == Low32s(Values(inputs, false))
    ensures r.fill == |Values(inputs, false)|
  {
    RootStoreAllLeaves(root, Values(inputs, false));
    StoreAll(root, Values(inputs, false))
  }

  /** The loop as evidently intended: only IPv4 results are stored, and an
      address already stored is skipped. */
  function Driver(root: Node, inputs: seq<Option<IpAddress>>): (r: Node)
    requires EmptyRootNode(root)
    ensures IsRoot(r)
    ensures r.fill == |Distinct(Values(inputs, true))|
  {
    StoreAll(root, Distinct(Values(inputs, true)))
  }

  /** As written, what is stored is the low 32 bits of every truthy value;
      in particular every non-zero IPv4 input is stored as itself. */
  lemma AsWrittenStores(root: Node, inputs: seq<Option<IpAddress>>)
    requires EmptyRootNode(root)
    ensures Leaves(DriverAsWritten(root, inputs)) == Low32s(Values(inputs, false))
    ensures forall x: nat :: 0 < x < AddressSpace && Some(V4(x)) in inputs ==>
      x in Leaves(DriverAsWritten(root, inputs))
  {
    var vs := Values(inputs, false);
    forall x: nat | 0 < x < AddressSpace && Some(V4(x)) in inputs
      ensures x in Leaves(DriverAsWritten(root, inputs))
    {
      ValuesMember(inputs, false, x);
      Low32sHas(vs, x);
      Low32Fits(x);
    }
  }

  /** The order of the parse results does not change the trie, whatever
      the input, as written. */
  lemma AsWrittenOrderFree(root: Node, s: seq<Option<IpAddress>>, t: seq<Option<IpAddress>>)
    requires EmptyRootNode(root) && multiset(s) == multiset(t)
    ensures DriverAsWritten(root, s) == DriverAsWritten(root, t)
  {
    ValuesPermutation(s, t, false);
    StoreAllPermutation(root, Values(s, false), Values(t, false));
  }

  lemma OrderFree(root: Node, s: seq<Option<IpAddress>>, t: seq<Option<IpAddress>>)
    requires EmptyRootNode(root) && multiset(s) == multiset(t)
    ensures Driver(root, s) == Driver(root, t)
  {
    ValuesPermutation(s, t, true);
    DistinctPermutation(Values(s, true), Values(t, true));
    StoreAllPermutation(root, Distinct(Values(s, true)), Distinct(Values(t, true)));
  }

  /** Every value the intended loop stores is an IPv4 result. */
  lemma DriverValuesFit(inputs: seq<Option<IpAddress>>)
    requires WellParsed(inputs)
    ensures forall v: nat :: v in Distinct(Values(inputs, true)) ==> v < AddressSpace
  {
    forall v: nat | v in Distinct(Values(inputs, true))
      ensures v < AddressSpace
    {
      ValuesMember(inputs, true, v);
    }
  }

  /** An address is stored exactly when it is a non-zero IPv4 input; in
      particular `0.0.0.0` is never stored. */
  lemma DriverStores(root: Node, inputs: seq<Option<IpAddress>>, x: nat)
    requires EmptyRootNode(root) && WellParsed(inputs)
    ensures x in Leaves(Driver(root, inputs)) <==> x != 0 && Some(V4(x)) in inputs
  {
    var vs := Distinct(Values(inputs, true));
    RootStoreAllLeaves(root, vs);
    DriverValuesFit(inputs);
    Low32sOfSmall(vs, x);
    ValuesMember(inputs, true, x);
  }

  /** Every node's fill is the number of distinct addresses under it. */
  lemma DriverExact(root: Node, inputs: seq<Option<IpAddress>>)
    requires EmptyRootNode(root) && WellParsed(inputs)
    ensures Exact(Driver(root, inputs))
    ensures Driver(root, inputs).fill == |Leaves(Driver(root, inputs))|
  {
    DriverValuesFit(inputs);
    EmptyRoot(root);
    StoreAllExact(root, Distinct(Values(inputs, true)));
    ExactFillIsCount(Driver(root, inputs));
  }

  /** With `min_fill` at most 1 and no filtering, every non-zero IPv4 input
      lies in exactly one emitted subnet. */
  lemma DriverCoverage(root: Node, inputs: seq<Option<IpAddress>>, th: MinFill, sp: Network -> bool, x: nat)
    requires EmptyRootNode(root) && WellParsed(inputs) && th.num <= th.den
    requires x != 0 && Some(V4(x)) in inputs
    ensures HeldOnce(IterSubnets(Driver(root, inputs), th, false, sp), x)
  {
    DriverStores(root, inputs, x);
    StoreAllPopulated(root, Distinct(Values(inputs, true)));
    CoveredOnce(Driver(root, inputs), th, sp, x);
  }

  /** Every emitted subnet has at least `min_fill` of its addresses among
      the inputs. */
  lemma DriverDensity(root: Node, inputs: seq<Option<IpAddress>>, th: MinFill, f: bool, sp: Network -> bool)
    requires EmptyRootNode(root) && WellParsed(inputs)
    ensures forall net :: net in IterSubnets(Driver(root, inputs), th, f, sp) ==>
      |StoredIn(Driver(root, inputs), net)| * th.den >= th.num * Size(net.prefixLen)
  {
    DriverExact(root, inputs);
    Density(Driver(root, inputs), th, f, sp);
  }

  /** `c` stores of the same address. */
  function Repeat(n: Node, x: nat, c: nat): (r: Node)
    requires Valid(n)
    ensures Valid(r) && r.rank == n.rank && r.Base() == n.Base()
  {
    if c == 0 then n else Store(Repeat(n, x, c - 1), x)
  }

  /** Repeated stores into a fresh node build one chain: the fill is the
      number of stores, and only the child on the address's side exists. */
  lemma {:induction false} RepeatStep(n: Node, x: nat, c: nat, bit: bool)
    requires Valid(n) && Fresh(n) && n.rank < 32 && c >= 1 && bit == BitSet(x, 31 - n.rank)
    ensures RepeatChain(n, x, c, bit)
  {
    if c == 1 {
      RepeatOnce(n, x, bit);
    } else {
      RepeatStep(n, x, c - 1, bit);
      RepeatMore(n, x, c, bit);
    }
  }

  /** The shape of `c` stores of `x` into a fresh node. */
  predicate RepeatChain(n: Node, x: nat, c: nat, bit: bool)
    requires Valid(n) && n.rank < 32
  {
    && Repeat(n, x, c).fill == c
    && Repeat(n, x, c).Child(bit) == Some(Repeat(ChildFor(n, bit), x, c))
    && Repeat(n, x, c).Child(!bit) == None
  }

  lemma RepeatOnce(n: Node, x: nat, bit: bool)
    requires Valid(n) && Fresh(n) && n.rank < 32 && bit == BitSet(x, 31 - n.rank)
    ensures RepeatChain(n, x, 1, bit)
  {
    StoreStep(n, x, bit);
    assert Repeat(n, x, 1) == Store(n, x);
    assert Repeat(ChildFor(n, bit), x, 1) == Store(ChildFor(n, bit), x);
  }

  lemma RepeatMore(n: Node, x: nat, c: nat, bit: bool)
    requires Valid(n) && n.rank < 32 && c >= 2 && bit == BitSet(x, 31 - n.rank)
    requires RepeatChain(n, x, c - 1, bit)
    ensures RepeatChain(n, x, c, bit)
  {
    var child := ChildFor(n, bit);
    var prev := Repeat(n, x, c - 1);
    assert Repeat(n, x, c) == Store(prev, x);
    StoreStep(prev, x, bit);
    assert ChildFor(prev, bit) == Repeat(child, x, c - 1);
    assert Repeat(child, x, c) == Store(Repeat(child, x, c - 1), x);
  }

  /** Below the threshold, the chain's output is its one child's output. */
  lemma RepeatDescends(n: Node, x: nat, c: nat, th: MinFill, sp: Network -> bool)
    requires Valid(n) && Fresh(n) && n.rank < 32 && c >= 1
    requires c * th.den < th.num * Size(n.rank)
    ensures IterSubnets(Repeat(n, x, c), th, false, sp)
      == IterSubnets(Repeat(ChildFor(n, BitSet(x, 31 - n.rank)), x, c), th, false, sp)
  {
    var bit := BitSet(x, 31 - n.rank);
    RepeatStep(n, x, c, bit);
    assert ChildSubnets(Repeat(n, x, c), !bit, th, false, sp) == [];
  }

  /** The subnets emitted for an address stored `c` times into a fresh
      node: the one block holding the address at the first rank on its
      path that passes the threshold. */
  lemma {:induction false} ChainEmits(n: Node, x: nat, c: nat, k: PrefixLen, th: MinFill, sp: Network -> bool)
    requires Valid(n) && Fresh(n) && x < AddressSpace && n.InRange(x) && c >= 1
    requires n.rank <= k < 32
    requires c * th.den >= th.num * Size(k)
    requires forall r: PrefixLen :: n.rank <= r < k ==> c * th.den < th.num * Size(r)
    ensures SingleBlock(IterSubnets(Repeat(n, x, c), th, false, sp), x, k)
    decreases k - n.rank
  {
    var bit := BitSet(x, 31 - n.rank);
    if n.rank < k {
      RepeatDescends(n, x, c, th, sp);
      Low32Fits(x);
      DescentFollowsAddress(n, x);
      ChainEmits(ChildFor(n, bit), x, c, k, th, sp);
    } else {
      RepeatStep(n, x, c, bit);
    }
  }

  /** Where the block of prefix length `k` holding `x` starts. */
  function BlockBase(x: nat, k: PrefixLen): (b: nat)
    ensures b <= x < b + Size(k)
  {
    ModBelow(x, Size(k));
    x - x % Size(k)
  }

  /** The one network of prefix length `k` that holds `x`. */
  lemma BlockOf(net: Network, x: nat, k: PrefixLen)
    requires WellFormed(net) && net.prefixLen == k && Contains(net, x)
    ensures net == Network(BlockBase(x, k), k)
  {
    BlockStart(net.address, x, 32 - k);
  }

  /** A one-network output, of prefix length `k` and holding `x`. */
  predicate SingleBlock(out: seq<Network>, x: nat, k: PrefixLen) {
    |out| == 1 && WellFormed(out[0]) && out[0].prefixLen == k && Contains(out[0], x)
  }

  /** A one-network output is that block. */
  lemma OneBlock(out: seq<Network>, x: nat, k: PrefixLen)
    requires SingleBlock(out, x, k)
    ensures out == [Network(BlockBase(x, k), k)]
  {
    BlockOf(out[0], x, k);
    assert out == [out[0]];
  }

  /** The addresses stored under one child lie in that child's half of the
      node's block. */
  lemma HalfLeavesInRange(n: Node, bit: bool)
    requires Valid(n) && n.rank < 32
    ensures forall z :: z in LeavesOf(n.Child(bit)) ==>
      n.Base() + (if bit then Half(n.rank) else 0) <= z
      && z < n.Base() + (if bit then Size(n.rank) else Half(n.rank))
  {
    if n.Child(bit).Some? {
      ChildValid(n, bit);
      LeavesInRange(n.Child(bit).value);
    }
  }

  /** When everything a populated node stores lies in one network smaller
      than the node's block, only the child on that network's side
      exists, and it stores everything. */
  lemma OneSide(n: Node, net: Network) returns (bit: bool)
    requires Valid(n) && Populated(n) && WellFormed(net) && n.rank < net.prefixLen
    requires Leaves(n) != {} && forall y :: y in Leaves(n) ==> Contains(net, y)
    ensures n.Child(bit).Some? && n.Child(!bit).None?
    ensures Leaves(n.Child(bit).value) == Leaves(n)
  {
    var mid := n.Base() + Half(n.rank);
    HalvesAligned(n.Base(), 31 - n.rank);
    AlignedWeaken(mid, 31 - n.rank, 32 - net.prefixLen);
    bit := mid <= net.address;
    if !bit {
      AlignedFits(net.address, mid, 32 - net.prefixLen);
    }
    HalfLeavesInRange(n, !bit);
    assert LeavesOf(n.Child(!bit)) <= Leaves(n);
    assert LeavesOf(n.Child(!bit)) == {};
    assert n.Child(!bit).None?;
    assert Leaves(n) == LeavesOf(n.Child(bit));
  }

  /** `iter_subnets` on an exactly counted trie whose stored addresses all
      lie in `net`: when `net`'s block is the first on the way down whose
      fill passes the threshold, the output is `net` alone. */
  lemma {:induction false} ClusterEmits(n: Node, net: Network, th: MinFill, sp: Network -> bool)
    requires Valid(n) && Exact(n) && Populated(n)
    requires WellFormed(net) && n.rank <= net.prefixLen
    requires Leaves(n) != {} && forall y :: y in Leaves(n) ==> Contains(net, y)
    requires |Leaves(n)| * th.den >= th.num * Size(net.prefixLen)
    requires forall r: PrefixLen :: n.rank <= r < net.prefixLen ==>
      |Leaves(n)| * th.den < th.num * Size(r)
    ensures IterSubnets(n, th, false, sp) == [net]
    decreases net.prefixLen - n.rank
  {
    if n.rank == net.prefixLen {
      ClusterHere(n, net, th, sp);
    } else {
      ExactFillIsCount(n);
      assert !Passes(n, th);
      var bit := OneSide(n, net);
      ChildValid(n, bit);
      ClusterEmits(n.Child(bit).value, net, th, sp);
      assert ChildSubnets(n, !bit, th, false, sp) == [];
    }
  }

  /** The last step: a node whose block is `net` and that passes emits
      `net`. */
  lemma ClusterHere(n: Node, net: Network, th: MinFill, sp: Network -> bool)
    requires Valid(n) && Exact(n) && WellFormed(net) && n.rank == net.prefixLen
    requires Leaves(n) != {} && forall y :: y in Leaves(n) ==> Contains(net, y)
    requires |Leaves(n)| * th.den >= th.num * Size(net.prefixLen)
    ensures IterSubnets(n, th, false, sp) == [net]
  {
    ExactFillIsCount(n);
    LeavesInRange(n);
    var y :| y in Leaves(n);
    BlockOf(AsNetwork(n), y, n.rank);
    BlockOf(net, y, n.rank);
  }

  /** The intended loop's trie is exactly counted and populated. */
  lemma DriverShape(root: Node, inputs: seq<Option<IpAddress>>)
    requires EmptyRootNode(root) && WellParsed(inputs)
    ensures Exact(Driver(root, inputs)) && Populated(Driver(root, inputs))
  {
    DriverExact(root, inputs);
    StoreAllPopulated(root, Distinct(Values(inputs, true)));
  }

  /** The intended loop, for inputs whose stored addresses all lie in one
      network: that network alone is written when it is the first block on
      the way down from the root whose fill passes `min_fill`. */
  lemma DriverCluster(root: Node, inputs: seq<Option<IpAddress>>, net: Network, th: MinFill, sp: Network -> bool)
    requires EmptyRootNode(root) && WellParsed(inputs) && WellFormed(net)
    requires Leaves(Driver(root, inputs)) != {}
    requires forall y :: y in Leaves(Driver(root, inputs)) ==> Contains(net, y)
    requires |Leaves(Driver(root, inputs))| * th.den >= th.num * Size(net.prefixLen)
    requires forall r: PrefixLen :: r < net.prefixLen ==>
      |Leaves(Driver(root, inputs))| * th.den < th.num * Size(r)
    ensures IterSubnets(Driver(root, inputs), th, false, sp) == [net]
  {
    DriverShape(root, inputs);
    ClusterEmits(Driver(root, inputs), net, th, sp);
  }

  /** With `min_fill` 1 a single address is written as its own /32: only a
      block it fills entirely passes, and that is its leaf. */
  lemma SingleHostAtFull(root: Node, x: nat, sp: Network -> bool)
    requires EmptyRootNode(root) && 0 < x < AddressSpace
    ensures IterSubnets(Driver(root, [Some(V4(x))]), Fraction(1, 1), false, sp)
      == [Network(x, 32)]
  {
    var inputs := [Some(V4(x))];
    forall y
      ensures y in Leaves(Driver(root, inputs)) <==> y == x
    {
      DriverStores(root, inputs, y);
    }
    assert Leaves(Driver(root, inputs)) == {x};
    SizesBelow(32);
    assert Size(32) == 1;
    DriverCluster(root, inputs, Network(x, 32), Fraction(1, 1), sp);
  }

  /** Three addresses x + 1, x + 2, x + 3 with x a multiple of 4, at
      `min_fill` 0.5: three of the four addresses of the /30 at x are
      stored, no larger block is half full, so the /30 is written. */
  lemma ThreeOfFour(root: Node, x: nat, sp: Network -> bool)
    requires EmptyRootNode(root) && x % 4 == 0 && x + 4 <= AddressSpace
    ensures IterSubnets(Driver(root, [Some(V4(x + 1)), Some(V4(x + 2)), Some(V4(x + 3))]),
      Fraction(1, 2), false, sp) == [Network(x, 30)]
  {
    var inputs := [Some(V4(x + 1)), Some(V4(x + 2)), Some(V4(x + 3))];
    ThreeStored(root, x);
    QuarterPasses(x);
    DriverCluster(root, inputs, Network(x, 30), Fraction(1, 2), sp);
  }

  lemma ThreeStored(root: Node, x: nat)
    requires EmptyRootNode(root) && x + 4 <= AddressSpace
    ensures var inputs := [Some(V4(x + 1)), Some(V4(x + 2)), Some(V4(x + 3))];
      WellParsed(inputs) && Leaves(Driver(root, inputs)) == {x + 1, x + 2, x + 3}
  {
    var inputs := [Some(V4(x + 1)), Some(V4(x + 2)), Some(V4(x + 3))];
    assert WellParsed(inputs);
    forall y
      ensures y in Leaves(Driver(root, inputs)) <==> y in {x + 1, x + 2, x + 3}
    {
      DriverStores(root, inputs, y);
    }
  }

  /** Three addresses fill the /30 at x three quarters, and no larger block
      half. */
  lemma QuarterPasses(x: nat)
    requires x % 4 == 0 && x + 4 <= AddressSpace
    ensures WellFormed(Network(x, 30))
    ensures forall y :: y in {x + 1, x + 2, x + 3} ==> Contains(Network(x, 30), y)
    ensures |{x + 1, x + 2, x + 3}| == 3
    ensures 3 * Fraction(1, 2).den >= Fraction(1, 2).num * Size(30)
    ensures forall r: PrefixLen :: r < 30 ==> 3 * Fraction(1, 2).den < Fraction(1, 2).num * Size(r)
  {
    assert Size(30) == 4;
    AlignedIsDivisible(x, 2);
    SizesBelow(30);
    forall r: PrefixLen | r < 30
      ensures 3 * Fraction(1, 2).den < Fraction(1, 2).num * Size(r)
    {
      HalfPasses(3, Size(r));
    }
  }

  /** 10.0.0.1, 10.0.0.2 and 10.0.0.3 at `min_fill` 0.5 give 10.0.0.0/30. */
  lemma ThreeHostsExample(root: Node, sp: Network -> bool)
    requires EmptyRootNode(root)
    ensures IterSubnets(Driver(root,
      [Some(V4(0x0A00_0001)), Some(V4(0x0A00_0002)), Some(V4(0x0A00_0003))]),
      Fraction(1, 2), false, sp) == [Network(0x0A00_0000, 30)]
  {
    ThreeOfFour(root, 0x0A00_0000, sp);
  }

  /** All four addresses of the /30 at x, with x a multiple of 8, at
      `min_fill` 0.5: the enclosing /29 is already half full and is found
      first on the way down, so the /29 is written and not the /30. */
  lemma FullQuarterGivesEighth(root: Node, x: nat, sp: Network -> bool)
    requires EmptyRootNode(root) && x % 8 == 0 && 0 < x && x + 8 <= AddressSpace
    ensures IterSubnets(Driver(root, [Some(V4(x)), Some(V4(x + 1)), Some(V4(x + 2)), Some(V4(x + 3))]),
      Fraction(1, 2), false, sp) == [Network(x, 29)]
  {
    var inputs := [Some(V4(x)), Some(V4(x + 1)), Some(V4(x + 2)), Some(V4(x + 3))];
    FourStored(root, x);
    EighthPasses(x);
    DriverCluster(root, inputs, Network(x, 29), Fraction(1, 2), sp);
  }

  lemma FourStored(root: Node, x: nat)
    requires EmptyRootNode(root) && 0 < x && x + 4 <= AddressSpace
    ensures var inputs := [Some(V4(x)), Some(V4(x + 1)), Some(V4(x + 2)), Some(V4(x + 3))];
      WellParsed(inputs) && Leaves(Driver(root, inputs)) == {x, x + 1, x + 2, x + 3}
  {
    var inputs := [Some(V4(x)), Some(V4(x + 1)), Some(V4(x + 2)), Some(V4(x + 3))];
    assert WellParsed(inputs);
    forall y
      ensures y in Leaves(Driver(root, inputs)) <==> y in {x, x + 1, x + 2, x + 3}
    {
      DriverStores(root, inputs, y);
    }
  }

  /** Four addresses fill the /29 at x half, and no larger block. */
  lemma EighthPasses(x: nat)
    requires x % 8 == 0 && x + 8 <= AddressSpace
    ensures WellFormed(Network(x, 29))
    ensures forall y :: y in {x, x + 1, x + 2, x + 3} ==> Contains(Network(x, 29), y)
    ensures |{x, x + 1, x + 2, x + 3}| == 4
    ensures 4 * Fraction(1, 2).den >= Fraction(1, 2).num * Size(29)
    ensures forall r: PrefixLen :: r < 29 ==> 4 * Fraction(1, 2).den < Fraction(1, 2).num * Size(r)
  {
    assert Size(29) == 8;
    AlignedIsDivisible(x, 3);
    SizesBelow(29);
    forall r: PrefixLen | r < 29
      ensures 4 * Fraction(1, 2).den < Fraction(1, 2).num * Size(r)
    {
      HalfPasses(4, Size(r));
    }
  }

  /** 10.0.0.0 to 10.0.0.3 at `min_fill` 0.5 give 10.0.0.0/29, not
      10.0.0.0/30. */
  lemma FullQuarterExample(root: Node, sp: Network -> bool)
    requires EmptyRootNode(root)
    ensures IterSubnets(Driver(root,
      [Some(V4(0x0A00_0000)), Some(V4(0x0A00_0001)), Some(V4(0x0A00_0002)), Some(V4(0x0A00_0003))]),
      Fraction(1, 2), false, sp) == [Network(0x0A00_0000, 29)]
  {
    FullQuarterGivesEighth(root, 0x0A00_0000, sp);
  }

  /** The loop as written, with `min_fill` at most 1 and no filtering:
      every non-zero IPv4 input is in exactly one written network, even
      when addresses repeat or IPv6 results are folded in. */
  lemma AsWrittenCoverage(root: Node, inputs: seq<Option<IpAddress>>, th: MinFill, sp: Network -> bool, x: nat)
    requires EmptyRootNode(root) && th.num <= th.den
    requires 0 < x < AddressSpace && Some(V4(x)) in inputs
    ensures HeldOnce(IterSubnets(DriverAsWritten(root, inputs), th, false, sp), x)
  {
    AsWrittenStores(root, inputs);
    StoreAllPopulated(root, Values(inputs, false));
    CoveredOnce(DriverAsWritten(root, inputs), th, sp, x);
  }

  /** The low 32 bits of every value are among the low bits of the list. */
  lemma {:induction false} Low32sHas(vs: seq<nat>, v: nat)
    requires v in vs
    ensures Low32(v) in Low32s(vs)
  {
    if vs[0] != v {
      assert v in vs[1..];
      Low32sHas(vs[1..], v);
    }
  }

  /** Without IPv6 results every admitted value is an IPv4 one. */
  lemma {:induction false} ValuesWithoutV6(inputs: seq<Option<IpAddress>>)
    requires forall i :: 0 <= i < |inputs| ==> inputs[i].None? || inputs[i].value.V4?
    ensures Values(inputs, false) == Values(inputs, true)
  {
    if |inputs| > 0 {
      ValuesWithoutV6(inputs[1..]);
    }
  }

  /** When no result is IPv6 and no value repeats, the loop as written and
      the intended loop build the same trie. */
  lemma AsWrittenAgrees(root: Node, inputs: seq<Option<IpAddress>>)
    requires EmptyRootNode(root)
    requires forall i :: 0 <= i < |inputs| ==> inputs[i].None? || inputs[i].value.V4?
    requires NoDuplicates(Values(inputs, false))
    ensures DriverAsWritten(root, inputs) == Driver(root, inputs)
  {
    ValuesWithoutV6(inputs);
    DistinctOfUnique(Values(inputs, false));
  }

  /** The parse results of one address given three times. */
  function Thrice(x: nat): seq<Option<IpAddress>> {
    [Some(V4(x)), Some(V4(x)), Some(V4(x))]
  }

  lemma ThriceValues(x: nat, v4Only: bool)
    requires x != 0
    ensures Values(Thrice(x), v4Only) == [x, x, x]
  {
    var t := Thrice(x);
    assert t[1..][1..][1..] == [];
    assert Values(t[1..][1..], v4Only) == [x];
    assert Values(t[1..], v4Only) == [x, x];
  }

  lemma ThriceDistinct(x: nat)
    ensures Distinct([x, x, x]) == [x]
  {
    assert [x, x, x][..2] == [x, x];
    assert [x, x][..1] == [x];
    assert Distinct([x]) == [x];
  }

  lemma ThriceStored(root: Node, x: nat)
    requires EmptyRootNode(root) && x < AddressSpace
    ensures StoreAll(root, [x, x, x]) == Repeat(root, x, 3)
    ensures Low32s([x, x, x]) == {x}
  {
    assert [x, x, x][1..] == [x, x];
    assert [x, x][1..] == [x];
    assert Repeat(root, x, 1) == Store(root, x);
    assert Repeat(root, x, 2) == Store(Store(root, x), x);
    assert StoreAll(Store(Store(root, x), x), [x]) == Store(Store(Store(root, x), x), x);
    Low32Fits(x);
    assert Low32s([x]) == {x};
  }

  /** Every shorter prefix has at least twice the block size. */
  lemma SizesBelow(k: PrefixLen)
    ensures forall r: PrefixLen :: r < k ==> 2 * Size(k) <= Size(r)
  {
    forall r: PrefixLen | r < k
      ensures 2 * Size(k) <= Size(r)
    {
      Pow2Mono(33 - k, 32 - r);
    }
  }

  /** The threshold test at `min_fill` 0.5. */
  lemma HalfPasses(c: nat, size: nat)
    ensures c * Fraction(1, 2).den >= Fraction(1, 2).num * size <==> 2 * c >= size
  {
  }

  /** `c` stores of `x` from an empty root, when rank `k` is the first whose
      block is at most twice `c`: one network, of length `k`, holding `x`. */
  lemma ChainAtRoot(root: Node, x: nat, c: nat, k: PrefixLen, sp: Network -> bool)
    requires EmptyRootNode(root) && x < AddressSpace && c >= 1 && k < 32
    requires c * 2 >= Size(k) && c < Size(k)
    ensures SingleBlock(IterSubnets(Repeat(root, x, c), Fraction(1, 2), false, sp), x, k)
  {
    SizesBelow(k);
    forall r: PrefixLen | 0 <= r < k
      ensures c * Fraction(1, 2).den < Fraction(1, 2).num * Size(r)
    {
      HalfPasses(c, Size(r));
    }
    HalfPasses(c, Size(k));
    RootCoversAll(root, x);
    ChainEmits(root, x, c, k, Fraction(1, 2), sp);
  }

  lemma SingleValues(root: Node, x: nat)
    requires EmptyRootNode(root) && x != 0
    ensures Driver(root, [Some(V4(x))]) == Repeat(root, x, 1)
  {
    assert Values([Some(V4(x))], true) == [x];
    assert Distinct([x]) == [x];
    assert StoreAll(root, [x]) == Repeat(root, x, 1);
  }

  /** An address stored once with `min_fill` 0.5 is emitted as the /31
      holding it. */
  lemma SingleHostExample(root: Node, x: nat, sp: Network -> bool)
    requires EmptyRootNode(root) && x < AddressSpace && x != 0
    ensures IterSubnets(Driver(root, [Some(V4(x))]), Fraction(1, 2), false, sp)
      == [Network(x - x % 2, 31)]
  {
    SingleValues(root, x);
    assert Size(31) == 2;
    ChainAtRoot(root, x, 1, 31, sp);
    OneBlock(IterSubnets(Repeat(root, x, 1), Fraction(1, 2), false, sp), x, 31);
  }

  /** As written, an IPv6 result is stored as the IPv4 address of its low
      32 bits: `::1` becomes 0.0.0.1, and `::1:0:0` (2^32) becomes 0.0.0.0,
      the one address the truthiness test is there to skip. The intended
      loop stores nothing for either. */
  lemma Ipv6FoldedAsWritten(root: Node, v: nat)
    requires EmptyRootNode(root) && v != 0
    ensures Leaves(DriverAsWritten(root, [Some(V6(v))])) == {v % AddressSpace}
    ensures Leaves(Driver(root, [Some(V6(v))])) == {}
  {
    assert Values([Some(V6(v))], false) == [v];
    assert Values([Some(V6(v))], true) == [];
    assert Distinct<nat>([]) == [];
    RootStoreAllLeaves(root, [v]);
    RootStoreAllLeaves(root, []);
  }

  /** As written, the three parse results build the chain of three stores,
      which holds the one address. */
  lemma AsWrittenThrice(root: Node, x: nat)
    requires EmptyRootNode(root) && x < AddressSpace && x != 0
    ensures DriverAsWritten(root, Thrice(x)) == Repeat(root, x, 3)
    ensures Leaves(Repeat(root, x, 3)) == {x}
  {
    ThriceValues(x, false);
    ThriceStored(root, x);
    RootStoreAllLeaves(root, [x, x, x]);
  }

  /** Three stores of `x` at `min_fill` 0.5 emit the /30 holding `x`. */
  lemma ThreeStoresEmit(root: Node, x: nat, sp: Network -> bool)
    requires EmptyRootNode(root) && x < AddressSpace
    ensures IterSubnets(Repeat(root, x, 3), Fraction(1, 2), false, sp)
      == [Network(BlockBase(x, 30), 30)]
  {
    assert Size(30) == 4;
    ChainAtRoot(root, x, 3, 30, sp);
    OneBlock(IterSubnets(Repeat(root, x, 3), Fraction(1, 2), false, sp), x, 30);
  }

  /** As written, an address given three times with `min_fill` 0.5 is
      emitted as a /30 — 10.0.0.1 as 10.0.0.0/30 — which holds one stored
      address out of four: the repeats are counted in every node above the
      leaf. */
  lemma DuplicatesInflateFill(root: Node, x: nat, sp: Network -> bool)
    requires EmptyRootNode(root) && x < AddressSpace && x % 4 == 1
    ensures IterSubnets(DriverAsWritten(root, Thrice(x)), Fraction(1, 2), false, sp)
      == [Network(x - 1, 30)]
    ensures StoredIn(DriverAsWritten(root, Thrice(x)), Network(x - 1, 30)) == {x}
  {
    AsWrittenThrice(root, x);
    ThreeStoresEmit(root, x, sp);
    QuarterBlock(x);
  }

  /** The /30 holding an address that is 1 modulo 4 starts one below it. */
  lemma QuarterBlock(x: nat)
    requires x % 4 == 1
    ensures [Network(BlockBase(x, 30), 30)] == [Network(x - 1, 30)]
    ensures Contains(Network(x - 1, 30), x)
  {
    assert Size(30) == 4;
  }

  /** The intended loop keeps one of the three parse results. */
  lemma IntendedThrice(root: Node, x: nat)
    requires EmptyRootNode(root) && x != 0
    ensures Driver(root, Thrice(x)) == Driver(root, [Some(V4(x))])
  {
    ThriceValues(x, true);
    ThriceDistinct(x);
    assert Values([Some(V4(x))], true) == [x];
    assert Distinct([x]) == [x];
  }

  /** The intended loop stores the repeated address once and emits the /31
      of a single store. */
  lemma DuplicatesCountedOnce(root: Node, x: nat, sp: Network -> bool)
    requires EmptyRootNode(root) && x < AddressSpace && x % 4 == 1
    ensures IterSubnets(Driver(root, Thrice(x)), Fraction(1, 2), false, sp)
      == [Network(x - 1, 31)]
  {
    IntendedThrice(root, x);
    SingleHostExample(root, x, sp);
    OddOfFour(x);
  }

  lemma OddOfFour(x: nat)
    requires x % 4 == 1
    ensures x % 2 == 1
  {
    var q := x / 4;
    DivModUnique(x, 2 * q, 2, 1);
  }
}
