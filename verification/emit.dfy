/** The subnet-emission pass of `ips_to_subnets.py`: `current_fill`,
    `as_network` and `iter_subnets`, and what the emitted sequence promises. */
module Emit {
  import opened Wrappers
  import opened Bits
  import opened Cidr
  import opened Trie

  /** The `min_fill` threshold as an exact fraction. */
  datatype Fraction = Fraction(num: int, den: int)

  type MinFill = f: Fraction | f.den > 0 witness Fraction(0, 1)

  /** `current_fill >= min_fill`, compared exactly: the fill ratio
      fill / 2^(32 - rank) is at least num / den. */
  predicate Passes(n: Node, th: MinFill) {
    n.fill * th.den >= th.num * Size(n.rank)
  }

  lemma CrossMultiply(a: real, b: real, c: real, d: real)
    requires b > 0.0 && d > 0.0
    ensures a / b >= c / d <==> a * d >= c * b
  {
    assert a / b * (b * d) == a * d;
    assert c / d * (b * d) == c * b;
    if a / b >= c / d {
      assert a / b * (b * d) >= c / d * (b * d);
    } else {
      assert a / b * (b * d) < c / d * (b * d);
    }
  }

  /** Comparing two products is the same over the integers and the reals. */
  lemma CastCompare(a: int, b: int, c: int, d: int)
    ensures (a as real) * (b as real) >= (c as real) * (d as real) <==> a * b >= c * d
  {
    assert (a as real) * (b as real) == (a * b) as real;
    assert (c as real) * (d as real) == (c * d) as real;
  }

  lemma RatioTest(f: int, s: int, num: int, den: int)
    requires s > 0 && den > 0
    ensures f * den >= num * s <==> (f as real) / (s as real) >= (num as real) / (den as real)
  {
    CastCompare(f, den, num, s);
    CrossMultiply(f as real, s as real, num as real, den as real);
  }

  /** The integer test is the ratio test of `current_fill` against
      `min_fill`, carried out in exact rational arithmetic. */
  lemma PassesIsRatioTest(n: Node, th: MinFill)
    ensures Passes(n, th)
      <==> (n.fill as real) / (Size(n.rank) as real) >= (th.num as real) / (th.den as real)
  {
    RatioTest(n.fill, Size(n.rank), th.num, th.den);
  }

  /** `as_network`: the node's block as a network. The strict constructor
      never rejects it, and the network holds exactly the node's block. */
  function AsNetwork(n: Node): (r: Network)
    requires Valid(n)
    ensures MakeNetwork(n.Base(), n.rank) == Success(r)
    ensures forall x :: Contains(r, x) <==> n.InRange(x)
  {
    MakeNetwork(n.Base(), n.rank).value
  }

  /** `iter_subnets`: a node that passes the threshold is emitted, or
      dropped when `filterSpecial` is on and the classifier flags it, and
      either way nothing below it is visited; a node that fails gives the
      subnets of its 0-child followed by those of its 1-child. The
      classifier (`is_multicast or is_private or is_reserved or
      is_loopback`) is a parameter. */
  function IterSubnets(n: Node, th: MinFill, filterSpecial: bool, special: Network -> bool)
    : (r: seq<Network>)
    requires Valid(n)
    ensures forall i :: 0 <= i < |r| ==> WellFormed(r[i]) && Within(r[i], n.Base(), n.rank)
    ensures filterSpecial ==> forall i :: 0 <= i < |r| ==> !special(r[i])
    decreases 32 - n.rank, 1
  {
    if Passes(n, th) then
      var net := AsNetwork(n);
      if filterSpecial && special(net) then [] else [net]
    else
      ChildSubnets(n, false, th, filterSpecial, special)
        + ChildSubnets(n, true, th, filterSpecial, special)
  }

  /** The subnets emitted below one child of `n`, inside that child's half
      of the block. */
  function ChildSubnets(n: Node, bit: bool, th: MinFill, f: bool, sp: Network -> bool)
    : (r: seq<Network>)
    requires Valid(n)
    ensures n.Child(bit).None? ==> r == []
    ensures forall i :: 0 <= i < |r| ==>
      && n.rank < 32 && WellFormed(r[i])
      && Within(r[i], n.Base() + (if bit then Half(n.rank) else 0), n.rank + 1)
    ensures f ==> forall i :: 0 <= i < |r| ==> !sp(r[i])
    decreases 32 - n.rank, 0
  {
    if n.Child(bit).Some? then
      ChildValid(n, bit);
      IterSubnets(n.Child(bit).value, th, f, sp)
    else []
  }

  /** The emitted subnets ascend: each ends before the next begins, since
      the 0-child's block precedes the 1-child's. */
  lemma {:induction false} SubnetsAscending(n: Node, th: MinFill, f: bool, sp: Network -> bool)
    requires Valid(n)
    ensures Ascending(IterSubnets(n, th, f, sp))
    decreases 32 - n.rank
  {
    if !Passes(n, th) {
      var left, right := ChildSubnets(n, false, th, f, sp), ChildSubnets(n, true, th, f, sp);
      if n.rank < 32 {
        var mid := n.Base() + Half(n.rank);
        if n.child0.Some? {
          ChildValid(n, false);
          SubnetsAscending(n.child0.value, th, f, sp);
        }
        if n.child1.Some? {
          ChildValid(n, true);
          SubnetsAscending(n.child1.value, th, f, sp);
        }
        AscendingConcat(left, right, mid);
      }
    }
  }

  /** Consequently the output is strictly ascending by address and no
      address lies in two emitted subnets. */
  lemma SubnetsDisjoint(n: Node, th: MinFill, f: bool, sp: Network -> bool)
    requires Valid(n)
    ensures var r := IterSubnets(n, th, f, sp);
      && (forall i, j :: 0 <= i < j < |r| ==> r[i].address < r[j].address)
      && (forall i, j, x :: 0 <= i < j < |r| && Contains(r[i], x) ==> !Contains(r[j], x))
  {
    SubnetsAscending(n, th, f, sp);
    AscendingDisjoint(IterSubnets(n, th, f, sp));
  }

  /** The subnets of `s` the classifier does not flag, in order. */
  function Unflagged(s: seq<Network>, sp: Network -> bool): (r: seq<Network>)
    ensures forall net :: net in r <==> net in s && !sp(net)
  {
    if |s| == 0 then []
    else if sp(s[0]) then Unflagged(s[1..], sp)
    else [s[0]] + Unflagged(s[1..], sp)
  }

  lemma {:induction false} UnflaggedConcat(a: seq<Network>, b: seq<Network>, sp: Network -> bool)
    ensures Unflagged(a + b, sp) == Unflagged(a, sp) + Unflagged(b, sp)
  {
    if |a| == 0 {
      assert a + b == b;
    } else {
      assert (a + b)[1..] == a[1..] + b;
      UnflaggedConcat(a[1..], b, sp);
    }
  }

  /** Filtering special subnets only removes emitted subnets: the traversal
      stops at the same nodes, and a flagged stop point drops its whole
      subtree instead of descending into it. */
  lemma {:induction false} FilterRemovesFlagged(n: Node, th: MinFill, sp: Network -> bool)
    requires Valid(n)
    ensures IterSubnets(n, th, true, sp) == Unflagged(IterSubnets(n, th, false, sp), sp)
    decreases 32 - n.rank
  {
    if !Passes(n, th) {
      if n.child0.Some? {
        ChildValid(n, false);
        FilterRemovesFlagged(n.child0.value, th, sp);
      }
      if n.child1.Some? {
        ChildValid(n, true);
        FilterRemovesFlagged(n.child1.value, th, sp);
      }
      UnflaggedConcat(ChildSubnets(n, false, th, false, sp), ChildSubnets(n, true, th, false, sp), sp);
    }
  }

  /** The side conditions under which every stored address is emitted: the
      trie is populated, a leaf has fill 1, and `min_fill` is at most 1. */
  predicate CoverageHolds(n: Node, th: MinFill) {
    Valid(n) && Populated(n) && (n.rank == 32 ==> n.fill == 1) && th.num <= th.den
  }

  /** With `min_fill <= 1` and no filtering every stored address lies in an
      emitted subnet: a leaf always passes, so every path stops somewhere. */
  lemma {:induction false} Coverage(n: Node, th: MinFill, sp: Network -> bool)
    requires CoverageHolds(n, th)
    ensures forall x :: x in Leaves(n) ==>
      exists net :: net in IterSubnets(n, th, false, sp) && Contains(net, x)
    decreases 32 - n.rank
  {
    var r := IterSubnets(n, th, false, sp);
    if Passes(n, th) {
      LeavesInRange(n);
      assert r == [AsNetwork(n)];
      forall x | x in Leaves(n)
        ensures AsNetwork(n) in r && Contains(AsNetwork(n), x)
      {
      }
    } else {
      assert n.rank < 32;
      forall x | x in Leaves(n)
        ensures exists net :: net in r && Contains(net, x)
      {
        var bit := x in LeavesOf(n.child1);
        if n.Child(bit).Some? {
          ChildValid(n, bit);
          Coverage(n.Child(bit).value, th, sp);
        }
        CoverageStep(n, th, sp, bit, x);
      }
    }
  }

  lemma CoverageStep(n: Node, th: MinFill, sp: Network -> bool, bit: bool, x: nat)
    requires CoverageHolds(n, th) && !Passes(n, th) && n.rank < 32
    requires x in LeavesOf(n.Child(bit))
    requires n.Child(bit).Some? ==>
      && CoverageHolds(n.Child(bit).value, th)
      && (forall y :: y in Leaves(n.Child(bit).value) ==>
           exists net :: net in IterSubnets(n.Child(bit).value, th, false, sp) && Contains(net, y))
    ensures exists net :: net in ChildSubnets(n, bit, th, false, sp) && Contains(net, x)
  {
  }

  /** Every stored address lies in exactly one emitted subnet. */
  lemma CoveredOnce(n: Node, th: MinFill, sp: Network -> bool, x: nat)
    requires CoverageHolds(n, th) && x in Leaves(n)
    ensures HeldOnce(IterSubnets(n, th, false, sp), x)
  {
    var r := IterSubnets(n, th, false, sp);
    Coverage(n, th, sp);
    SubnetsAscending(n, th, false, sp);
    CoveredByOne(r, x);
  }

  /** With the filter on, a stored address is in exactly one emitted subnet,
      or in none, and then the unfiltered pass emits a flagged subnet that
      holds it. */
  lemma FilteredCoverage(n: Node, th: MinFill, sp: Network -> bool, x: nat)
    requires CoverageHolds(n, th) && x in Leaves(n)
    ensures || HeldOnce(IterSubnets(n, th, true, sp), x)
            || exists net :: net in IterSubnets(n, th, false, sp) && Contains(net, x) && sp(net)
  {
    var all, kept := IterSubnets(n, th, false, sp), IterSubnets(n, th, true, sp);
    Coverage(n, th, sp);
    var net :| net in all && Contains(net, x);
    if !sp(net) {
      FilterRemovesFlagged(n, th, sp);
      assert net in kept;
      SubnetsAscending(n, th, true, sp);
      CoveredByOne(kept, x);
    }
  }

  lemma MulMono(a: int, b: int, c: int)
    requires a >= b && c >= 0
    ensures a * c >= b * c
  {
  }

  lemma MulCancel(a: int, b: int, c: int)
    requires a * c >= b * c && c > 0
    ensures a >= b
  {
    if a < b {
      MulMono(b, a + 1, c);
    }
  }

  /** `th1` is at most `th2`, as fractions. */
  lemma MulSwap(a: int, b: int, c: int)
    ensures (a * b) * c == (a * c) * b
  {
  }

  predicate AtMost(th1: MinFill, th2: MinFill) {
    th1.num * th2.den <= th2.num * th1.den
  }

  /** A node that passes a threshold passes every lower one. */
  lemma PassesMonotone(n: Node, th1: MinFill, th2: MinFill)
    requires AtMost(th1, th2) && Passes(n, th2)
    ensures Passes(n, th1)
  {
    var f, s := n.fill, Size(n.rank);
    var n1, d1, n2, d2 := th1.num, th1.den, th2.num, th2.den;
    MulMono(f * d2, n2 * s, d1);
    MulSwap(f, d2, d1);
    MulSwap(n2, s, d1);
    MulMono(n2 * d1, n1 * d2, s);
    MulSwap(n1, d2, s);
    MulCancel(f * d1, n1 * s, d2);
  }

  /** Some subnet of `s` contains `net`. */
  predicate InsideSome(net: Network, s: seq<Network>) {
    exists big :: big in s && Within(net, big.address, big.prefixLen)
  }

  /** Raising `min_fill` only refines the output: without filtering, every
      subnet emitted at the higher threshold lies inside one emitted at the
      lower. */
  lemma {:induction false} Refinement(n: Node, th1: MinFill, th2: MinFill, sp: Network -> bool)
    requires Valid(n) && AtMost(th1, th2)
    ensures forall net :: net in IterSubnets(n, th2, false, sp) ==>
      InsideSome(net, IterSubnets(n, th1, false, sp))
    decreases 32 - n.rank
  {
    var r1, r2 := IterSubnets(n, th1, false, sp), IterSubnets(n, th2, false, sp);
    if Passes(n, th2) {
      PassesMonotone(n, th1, th2);
    }
    if Passes(n, th1) {
      forall net | net in r2
        ensures InsideSome(net, r1)
      {
        assert AsNetwork(n) in r1;
      }
    } else {
      forall net | net in r2
        ensures InsideSome(net, r1)
      {
        var bit := net in ChildSubnets(n, true, th2, false, sp);
        assert n.Child(bit).Some?;
        ChildValid(n, bit);
        Refinement(n.Child(bit).value, th1, th2, sp);
        RefinementStep(n, th1, th2, sp, bit, net);
      }
    }
  }

  lemma RefinementStep(n: Node, th1: MinFill, th2: MinFill, sp: Network -> bool, bit: bool, net: Network)
    requires Valid(n) && !Passes(n, th1) && !Passes(n, th2) && n.Child(bit).Some?
    requires net in ChildSubnets(n, bit, th2, false, sp)
    requires Valid(n.Child(bit).value)
    requires forall m :: m in IterSubnets(n.Child(bit).value, th2, false, sp) ==>
      InsideSome(m, IterSubnets(n.Child(bit).value, th1, false, sp))
    ensures InsideSome(net, IterSubnets(n, th1, false, sp))
  {
    var big :| big in ChildSubnets(n, bit, th1, false, sp) && Within(net, big.address, big.prefixLen);
    assert big in IterSubnets(n, th1, false, sp);
  }

  /** The stored addresses a network holds. */
  function StoredIn(n: Node, net: Network): (r: set<nat>)
    ensures forall x :: x in r <==> x in Leaves(n) && Contains(net, x)
  {
    set x | x in Leaves(n) && Contains(net, x)
  }

  lemma {:induction false} SubsetCard(a: set<nat>, b: set<nat>)
    requires a <= b
    ensures |a| <= |b|
    decreases |a|
  {
    if a != {} {
      var x :| x in a;
      SubsetCard(a - {x}, b - {x});
    }
  }

  /** What `min_fill` promises when every address was stored once: each
      emitted subnet holds at least `min_fill` times its size of stored
      addresses. */
  lemma {:induction false} Density(n: Node, th: MinFill, f: bool, sp: Network -> bool)
    requires Valid(n) && Exact(n)
    ensures forall net :: net in IterSubnets(n, th, f, sp) ==>
      |StoredIn(n, net)| * th.den >= th.num * Size(net.prefixLen)
    decreases 32 - n.rank
  {
    var r := IterSubnets(n, th, f, sp);
    if Passes(n, th) {
      forall net | net in r
        ensures |StoredIn(n, net)| * th.den >= th.num * Size(net.prefixLen)
      {
        LeavesInRange(n);
        ExactFillIsCount(n);
        assert StoredIn(n, net) == Leaves(n);
      }
    } else {
      forall net | net in r
        ensures |StoredIn(n, net)| * th.den >= th.num * Size(net.prefixLen)
      {
        var bit := net in ChildSubnets(n, true, th, f, sp);
        assert n.Child(bit).Some?;
        ChildValid(n, bit);
        Density(n.Child(bit).value, th, f, sp);
        DensityStep(n, th, f, sp, bit, net);
      }
    }
  }

  lemma DensityStep(n: Node, th: MinFill, f: bool, sp: Network -> bool, bit: bool, net: Network)
    requires Valid(n) && !Passes(n, th) && n.Child(bit).Some? && Valid(n.Child(bit).value)
    requires net in ChildSubnets(n, bit, th, f, sp)
    requires forall m :: m in IterSubnets(n.Child(bit).value, th, f, sp) ==>
      |StoredIn(n.Child(bit).value, m)| * th.den >= th.num * Size(m.prefixLen)
    ensures |StoredIn(n, net)| * th.den >= th.num * Size(net.prefixLen)
  {
    var c := n.Child(bit).value;
    ChildLeavesStored(n, bit);
    assert StoredIn(c, net) <= StoredIn(n, net);
    SubsetCard(StoredIn(c, net), StoredIn(n, net));
    MulMono(|StoredIn(n, net)|, |StoredIn(c, net)|, th.den);
  }

  /** `min_fill <= 0` is never rejected, and then the node itself is
      emitted whatever it holds: for the root, `0.0.0.0/0` even for an empty
      trie. */
  lemma EmitsWholeBlock(n: Node, th: MinFill, sp: Network -> bool)
    requires Valid(n) && th.num <= 0
    ensures IterSubnets(n, th, false, sp) == [Network(n.Base(), n.rank)]
  {
    MulMono(0, th.num, Size(n.rank));
  }

  lemma EmptyTrieEmitsEverything(th: MinFill, sp: Network -> bool)
    requires th.num <= 0
    ensures IterSubnets(NewRoot(), th, false, sp) == [Network(0, 0)]
  {
    EmitsWholeBlock(NewRoot(), th, sp);
  }

  /** `min_fill > 1` is never rejected either, and then nothing is emitted:
      in a trie of distinct addresses no node is fuller than 1, not even a
      leaf, so every stored address silently vanishes. */
  lemma {:induction false} AboveOneEmitsNothing(n: Node, th: MinFill, f: bool, sp: Network -> bool)
    requires Valid(n) && Exact(n) && th.num > th.den
    ensures IterSubnets(n, th, f, sp) == []
    decreases 32 - n.rank
  {
    NoneFullerThanOne(n, th);
    if n.child0.Some? {
      ChildValid(n, false);
      AboveOneEmitsNothing(n.child0.value, th, f, sp);
    }
    if n.child1.Some? {
      ChildValid(n, true);
      AboveOneEmitsNothing(n.child1.value, th, f, sp);
    }
  }

  lemma NoneFullerThanOne(n: Node, th: MinFill)
    requires Shape(n) && Exact(n) && th.num > th.den
    ensures !Passes(n, th)
  {
    var f, s, num, den := n.fill, Size(n.rank), th.num, th.den;
    ExactFillBound(n);
    MulMono(s, f, den);
    MulMono(num, den + 1, s);
    assert (den + 1) * s == den * s + s;
    assert f * den < num * s;
  }

  /** With a positive `min_fill` every emitted subnet holds a stored
      address. */
  lemma {:induction false} SubnetsHoldStored(n: Node, th: MinFill, f: bool, sp: Network -> bool)
    requires Valid(n) && Populated(n) && th.num > 0
    ensures forall net :: net in IterSubnets(n, th, f, sp) ==> StoredIn(n, net) != {}
    decreases 32 - n.rank
  {
    if Passes(n, th) {
      PassingNodeHoldsStored(n, th, f, sp);
    } else {
      forall net | net in IterSubnets(n, th, f, sp)
        ensures StoredIn(n, net) != {}
      {
        var bit := net in ChildSubnets(n, true, th, f, sp);
        assert n.Child(bit).Some?;
        ChildValid(n, bit);
        SubnetsHoldStored(n.Child(bit).value, th, f, sp);
        HoldsStoredStep(n, th, f, sp, bit, net);
      }
    }
  }

  lemma HoldsStoredStep(n: Node, th: MinFill, f: bool, sp: Network -> bool, bit: bool, net: Network)
    requires Valid(n) && !Passes(n, th) && n.Child(bit).Some? && Valid(n.Child(bit).value)
    requires net in ChildSubnets(n, bit, th, f, sp)
    requires forall m :: m in IterSubnets(n.Child(bit).value, th, f, sp) ==>
      StoredIn(n.Child(bit).value, m) != {}
    ensures StoredIn(n, net) != {}
  {
    var x :| x in StoredIn(n.Child(bit).value, net);
    ChildLeavesStored(n, bit);
    assert x in StoredIn(n, net);
  }

  lemma PassingNodeHoldsStored(n: Node, th: MinFill, f: bool, sp: Network -> bool)
    requires Valid(n) && Populated(n) && th.num > 0 && Passes(n, th)
    ensures forall net :: net in IterSubnets(n, th, f, sp) ==> StoredIn(n, net) != {}
  {
    if n.fill == 0 {
      MulMono(th.num, 1, Size(n.rank));
    }
    LeavesInRange(n);
    var x :| x in Leaves(n);
    assert x in StoredIn(n, AsNetwork(n));
  }
}
