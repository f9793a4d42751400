/** IPv4 networks in CIDR notation (section 3.1 of RFC 4632): a base address
    and a prefix length, covering the 2^(32 - length) addresses that share the
    first `length` bits of the base address. */
module Cidr {
  import opened Wrappers
  import opened Bits

  /** A prefix length, also the rank of a trie node. */
  type PrefixLen = r: int | 0 <= r <= 32

  datatype Network = Network(address: nat, prefixLen: PrefixLen)

  /** Number of addresses in a block of the given prefix length. */
  function Size(len: PrefixLen): (r: nat)
    ensures r >= 1
  {
    Pow2(32 - len)
  }

  /** One past the last address of `net`. */
  function End(net: Network): nat {
    net.address + Size(net.prefixLen)
  }

  predicate Contains(net: Network, x: nat) {
    net.address <= x < End(net)
  }

  /** The network's block lies inside the block [base, base + Size(len)). */
  predicate Within(net: Network, base: nat, len: PrefixLen) {
    base <= net.address && End(net) <= base + Size(len)
  }

  /** A network the strict `IPv4Network` constructor accepts: the address is a
      32-bit value whose host bits are all zero. */
  predicate WellFormed(net: Network) {
    Aligned(net.address, 32 - net.prefixLen) && End(net) <= AddressSpace
  }

  datatype NetError = AddressValueError | NetmaskValueError | HostBitsSet

  /** `ipaddress.IPv4Network((address, prefixLen))` in its default strict mode. */
  function MakeNetwork(address: int, prefixLen: int): (r: Result<Network, NetError>)
    ensures r.Success? ==> WellFormed(r.value)
    ensures r.Success? ==> r.value.address == address && r.value.prefixLen == prefixLen
    ensures r.Failure? ==> !(0 <= address < AddressSpace && 0 <= prefixLen <= 32
                             && Aligned(address, 32 - prefixLen))
  {
    if !(0 <= address < AddressSpace) then Failure(AddressValueError)
    else if !(0 <= prefixLen <= 32) then Failure(NetmaskValueError)
    else if !Aligned(address, 32 - prefixLen) then Failure(HostBitsSet)
    else
      AddressSpaceAligned(prefixLen);
      AlignedFits(address, AddressSpace, 32 - prefixLen);
      Success(Network(address, prefixLen))
  }

  lemma AddressSpaceAligned(len: PrefixLen)
    ensures Aligned(AddressSpace, 32 - len)
  {
    Pow2Is32();
    Pow2Aligned(32, 32 - len);
  }

  /** Each network ends no later than the next one starts. */
  predicate Ascending(s: seq<Network>) {
    forall i, j :: 0 <= i < j < |s| ==> End(s[i]) <= s[j].address
  }

  /** An ascending sequence is strictly ascending by base address and its
      networks are pairwise disjoint. */
  lemma AscendingDisjoint(s: seq<Network>)
    requires Ascending(s)
    ensures forall i, j :: 0 <= i < j < |s| ==> s[i].address < s[j].address
    ensures forall i, j, x :: 0 <= i < j < |s| && Contains(s[i], x) ==> !Contains(s[j], x)
  {
  }

  /** In an ascending sequence at most one network holds a given address. */
  lemma AscendingUnique(s: seq<Network>, i: nat, j: nat, x: nat)
    requires Ascending(s) && i < |s| && j < |s| && Contains(s[i], x) && Contains(s[j], x)
    ensures i == j
  {
  }

  /** No network of `s` but the `i`-th holds x. */
  predicate OnlyHolder(s: seq<Network>, i: nat, x: nat) {
    forall j :: 0 <= j < |s| && Contains(s[j], x) ==> j == i
  }

  /** Exactly one network of `s` holds x. */
  predicate HeldOnce(s: seq<Network>, x: nat) {
    exists i :: 0 <= i < |s| && Contains(s[i], x) && OnlyHolder(s, i, x)
  }

  /** An address some network of an ascending sequence holds is held by
      exactly one of them. */
  lemma CoveredByOne(s: seq<Network>, x: nat)
    requires Ascending(s) && exists net :: net in s && Contains(net, x)
    ensures HeldOnce(s, x)
  {
    var net :| net in s && Contains(net, x);
    var i :| 0 <= i < |s| && s[i] == net;
    forall j | 0 <= j < |s| && Contains(s[j], x)
      ensures j == i
    {
      AscendingUnique(s, i, j, x);
    }
  }

  lemma AscendingConcat(a: seq<Network>, b: seq<Network>, mid: nat)
    requires Ascending(a) && Ascending(b)
    requires forall i :: 0 <= i < |a| ==> End(a[i]) <= mid
    requires forall j :: 0 <= j < |b| ==> mid <= b[j].address
    ensures Ascending(a + b)
  {
    var c := a + b;
    forall i, j | 0 <= i < j < |c|
      ensures End(c[i]) <= c[j].address
    {
      if j < |a| {
        assert c[i] == a[i] && c[j] == a[j];
      } else if i >= |a| {
        assert c[i] == b[i - |a|] && c[j] == b[j - |a|];
      } else {
        assert c[i] == a[i] && c[j] == b[j - |a|];
      }
    }
  }
}
