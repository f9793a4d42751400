/** Keeping the first occurrence of each value: the `ips` set and the
    "write only if not seen" loop shared by `dump_to_ips.py` and
    `archive_to_ips.py`. */
module Dedup {

  predicate NoDuplicates<T(==,!new)>(s: seq<T>) {
    forall i, j :: 0 <= i < j < |s| ==> s[i] != s[j]
  }

  /** The values of `s`, each once, in the order they first occur. */
  function Distinct<T(==,!new)>(s: seq<T>): (r: seq<T>)
    ensures NoDuplicates(r)
    ensures forall x :: x in r <==> x in s
    ensures |r| <= |s|
  {
    if |s| == 0 then []
    else
      var d := Distinct(s[..|s| - 1]);
      var last := s[|s| - 1];
      assert forall x :: x in s <==> x in s[..|s| - 1] || x == last;
      if last in d then d else d + [last]
  }

  /** Extending the input by one value extends the output by that value
      exactly when it was not seen before. */
  lemma DistinctSnoc<T(!new)>(s: seq<T>, a: T)
    ensures Distinct(s + [a]) == if a in s then Distinct(s) else Distinct(s) + [a]
  {
    assert (s + [a])[..|s + [a]| - 1] == s;
  }

  /** A sequence without duplicates is its own first-occurrence order. */
  lemma {:induction false} DistinctOfUnique<T(!new)>(s: seq<T>)
    requires NoDuplicates(s)
    ensures Distinct(s) == s
  {
    if |s| > 0 {
      var init := s[..|s| - 1];
      assert NoDuplicates(init);
      DistinctOfUnique(init);
      assert s == init + [s[|s| - 1]];
      DistinctSnoc(init, s[|s| - 1]);
    }
  }

  lemma DistinctIdempotent<T(!new)>(s: seq<T>)
    ensures Distinct(Distinct(s)) == Distinct(s)
  {
    DistinctOfUnique(Distinct(s));
  }

  /** In a sequence without duplicates every member occurs once. */
  lemma {:induction false} UniqueMultiplicity<T(!new)>(s: seq<T>, x: T)
    requires NoDuplicates(s)
    ensures multiset(s)[x] == if x in s then 1 else 0
  {
    if |s| > 0 {
      var init := s[..|s| - 1];
      assert s == init + [s[|s| - 1]];
      assert NoDuplicates(init);
      UniqueMultiplicity(init, x);
    }
  }

  /** Two duplicate-free sequences with the same members are permutations
      of each other. */
  lemma UniqueSameMembers<T(!new)>(a: seq<T>, b: seq<T>)
    requires NoDuplicates(a) && NoDuplicates(b)
    requires forall x :: x in a <==> x in b
    ensures multiset(a) == multiset(b)
  {
    forall x
      ensures multiset(a)[x] == multiset(b)[x]
    {
      UniqueMultiplicity(a, x);
      UniqueMultiplicity(b, x);
    }
  }

  /** Reordering the input reorders the output only. */
  lemma DistinctPermutation<T(!new)>(s: seq<T>, t: seq<T>)
    requires multiset(s) == multiset(t)
    ensures multiset(Distinct(s)) == multiset(Distinct(t))
  {
    forall x
      ensures x in Distinct(s) <==> x in Distinct(t)
    {
      assert x in s <==> x in multiset(s);
      assert x in t <==> x in multiset(t);
    }
    UniqueSameMembers(Distinct(s), Distinct(t));
  }

  /** The batches one after another. */
  function Flatten<T(!new)>(batches: seq<seq<T>>): (r: seq<T>)
    ensures forall x :: x in r <==> exists i :: 0 <= i < |batches| && x in batches[i]
  {
    if |batches| == 0 then []
    else
      var init := batches[..|batches| - 1];
      var r := Flatten(init) + batches[|batches| - 1];
      assert forall i :: 0 <= i < |init| ==> init[i] == batches[i];
      r
  }

  lemma FlattenSnoc<T(!new)>(batches: seq<seq<T>>, i: nat)
    requires i < |batches|
    ensures Flatten(batches[..i + 1]) == Flatten(batches[..i]) + batches[i]
  {
    assert batches[..i + 1][..i] == batches[..i];
  }

  /** Flattening distributes over joining the batch lists. */
  lemma {:induction false} FlattenConcat<T(!new)>(a: seq<seq<T>>, b: seq<seq<T>>)
    ensures Flatten(a + b) == Flatten(a) + Flatten(b)
    decreases |b|
  {
    if |b| == 0 {
      assert a + b == a;
    } else {
      var init := b[..|b| - 1];
      assert (a + b)[..|a + b| - 1] == a + init;
      FlattenConcat(a, init);
    }
  }

  /** Delivering the same batches in another order delivers the same
      addresses, only reordered. */
  lemma {:induction false} FlattenPermutation<T(!new)>(a: seq<seq<T>>, b: seq<seq<T>>)
    requires multiset(a) == multiset(b)
    ensures multiset(Flatten(a)) == multiset(Flatten(b))
    decreases |a|
  {
    if |a| == 0 {
      assert |b| == |multiset(b)| == 0;
    } else {
      var init, last := a[..|a| - 1], a[|a| - 1];
      assert last in multiset(b);
      var k :| 0 <= k < |b| && b[k] == last;
      var rest := b[..k] + b[k + 1..];
      RemoveMatching(a, b, k);
      FlattenPermutation(init, rest);
      FlattenAround(b, k);
      assert a == init + [last];
      FlattenConcat(init, [last]);
      FlattenSingle(last);
    }
  }

  /** Taking the last batch off one list and a matching batch off the
      other leaves two lists that are still permutations. */
  lemma RemoveMatching<T(!new)>(a: seq<seq<T>>, b: seq<seq<T>>, k: nat)
    requires multiset(a) == multiset(b) && |a| > 0 && k < |b| && b[k] == a[|a| - 1]
    ensures multiset(a[..|a| - 1]) == multiset(b[..k] + b[k + 1..])
  {
    var init, last, rest := a[..|a| - 1], a[|a| - 1], b[..k] + b[k + 1..];
    assert a == init + [last];
    assert b == b[..k] + [last] + b[k + 1..];
    assert multiset(b) == multiset(rest) + multiset{last};
    assert multiset(a) == multiset(init) + multiset{last};
    forall x
      ensures multiset(init)[x] == multiset(rest)[x]
    {
      assert multiset(a)[x] == multiset(b)[x];
    }
  }

  /** Flattening around one batch: what comes before it, the batch, and
      what comes after it. */
  lemma FlattenAround<T(!new)>(b: seq<seq<T>>, k: nat)
    requires k < |b|
    ensures multiset(Flatten(b))
      == multiset(Flatten(b[..k] + b[k + 1..])) + multiset(b[k])
  {
    FlattenSplit(b, k);
    FlattenConcat(b[..k], b[k + 1..]);
    MultisetMiddle(Flatten(b[..k]), b[k], Flatten(b[k + 1..]));
  }

  lemma FlattenSplit<T(!new)>(b: seq<seq<T>>, k: nat)
    requires k < |b|
    ensures Flatten(b) == Flatten(b[..k]) + b[k] + Flatten(b[k + 1..])
  {
    var left, mid, right := b[..k], b[k], b[k + 1..];
    CutAt(b, k);
    FlattenConcat(left + [mid], right);
    FlattenConcat(left, [mid]);
    FlattenSingle(mid);
  }

  lemma CutAt<U>(b: seq<U>, k: nat)
    requires k < |b|
    ensures b == (b[..k] + [b[k]]) + b[k + 1..]
  {
  }

  lemma MultisetMiddle<T>(x: seq<T>, y: seq<T>, z: seq<T>)
    ensures multiset(x + y + z) == multiset(x + z) + multiset(y)
  {
  }

  lemma FlattenSingle<T(!new)>(batch: seq<T>)
    ensures Flatten([batch]) == batch
  {
    assert [batch][..0] == [];
  }

  /** Whatever order the per-line batches arrive in, the writer's output
      holds the same addresses, each once. */
  lemma BatchOrderPermutes<T(!new)>(a: seq<seq<T>>, b: seq<seq<T>>)
    requires multiset(a) == multiset(b)
    ensures multiset(Distinct(Flatten(a))) == multiset(Distinct(Flatten(b)))
  {
    FlattenPermutation(a, b);
    DistinctPermutation(Flatten(a), Flatten(b));
  }

  /** The writer loop: for each batch of addresses a line produced, in
      order, write every address not written before. The output is the
      first-occurrence order of all addresses, so each address is written
      once and every produced address is written. */
  method WriteUnique<T(==,!new)>(batches: seq<seq<T>>) returns (out: seq<T>)
    ensures out == Distinct(Flatten(batches))
    ensures NoDuplicates(out)
    ensures forall x :: x in out <==> exists i :: 0 <= i < |batches| && x in batches[i]
  {
    var seen: set<T> := {};
    out := [];
    var i := 0;
    while i < |batches|
      invariant 0 <= i <= |batches|
      invariant out == Distinct(Flatten(batches[..i]))
      invariant forall x :: x in seen <==> x in out
    {
      out, seen := WriteBatch(out, seen, batches[i], Flatten(batches[..i]));
      FlattenSnoc(batches, i);
      i := i + 1;
    }
    assert batches[..i] == batches;
  }

  /** The inner loop of the writer: the addresses of one line, against the
      set of addresses written so far. */
  method WriteBatch<T(==,!new)>(written: seq<T>, seen: set<T>, batch: seq<T>, ghost before: seq<T>)
    returns (out: seq<T>, seen': set<T>)
    requires written == Distinct(before)
    requires forall x :: x in seen <==> x in written
    ensures out == Distinct(before + batch)
    ensures forall x :: x in seen' <==> x in out
  {
    out, seen' := written, seen;
    var j := 0;
    assert before + batch[..0] == before;
    while j < |batch|
      invariant 0 <= j <= |batch|
      invariant out == Distinct(before + batch[..j])
      invariant forall x :: x in seen' <==> x in out
    {
      var a := batch[j];
      DistinctSnoc(before + batch[..j], a);
      assert before + batch[..j + 1] == before + batch[..j] + [a];
      if a !in seen' {
        seen' := seen' + {a};
        out := out + [a];
      }
      j := j + 1;
    }
    assert batch[..j] == batch;
  }
}
