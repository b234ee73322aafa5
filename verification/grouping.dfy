/** `group_by` in scripts/decide-check-hopper.py: a partition of a sequence
    by a key function, each part keeping the original order. */
module Grouping {

  /** The elements of `xs` whose key is `k`, in their original order. */
  function Select<T, K(==)>(f: T -> K, xs: seq<T>, k: K): (ys: seq<T>)
    ensures |ys| <= |xs|
  {
    if |xs| == 0 then []
    else Select(f, xs[..|xs| - 1], k) + (if f(xs[|xs| - 1]) == k then [xs[|xs| - 1]] else [])
  }

  /** The `defaultdict(list)` after appending every element to the list of
      its key, in order. */
  function GroupBy<T, K(==, !new)>(f: T -> K, xs: seq<T>): (g: map<K, seq<T>>)
    ensures forall k :: k in g <==> Select(f, xs, k) != []
    ensures forall k :: k in g ==> g[k] == Select(f, xs, k)
  {
    if |xs| == 0 then map[]
    else
      var init := xs[..|xs| - 1];
      var g := GroupBy(f, init);
      var el := xs[|xs| - 1];
      g[f(el) := (if f(el) in g then g[f(el)] else []) + [el]]
  }

  /** A group holds only elements of the input with its key. */
  lemma {:induction false} SelectMembers<T, K>(f: T -> K, xs: seq<T>, k: K)
    ensures forall y :: y in Select(f, xs, k) ==> y in xs && f(y) == k
    decreases |xs|
  {
    if |xs| > 0 {
      SelectMembers(f, xs[..|xs| - 1], k);
      assert forall y :: y in xs[..|xs| - 1] ==> y in xs;
    }
  }

  /** Every element lands in exactly the group of its own key. */
  lemma {:induction false} ElementInOwnGroup<T, K(!new)>(f: T -> K, xs: seq<T>, i: nat)
    requires i < |xs|
    ensures f(xs[i]) in GroupBy(f, xs)
    ensures xs[i] in GroupBy(f, xs)[f(xs[i])]
    decreases |xs|
  {
    if i < |xs| - 1 {
      assert xs[..|xs| - 1][i] == xs[i];
      ElementInOwnGroup(f, xs[..|xs| - 1], i);
    }
  }

  /** The group of a key `k` and the rest partition `xs`: together they hold
      every element exactly as often as `xs` does. */
  lemma SelectSizes<T, K>(f: T -> K, xs: seq<T>, k: K)
    ensures multiset(Select(f, xs, k)) + multiset(SelectOther(f, xs, k)) == multiset(xs)
    ensures |Select(f, xs, k)| + |SelectOther(f, xs, k)| == |xs|
  {
    SelectPartition(f, xs, k);
    assert |multiset(xs)| == |xs|;
  }

  lemma {:induction false} SelectPartition<T, K>(f: T -> K, xs: seq<T>, k: K)
    ensures multiset(Select(f, xs, k)) + multiset(SelectOther(f, xs, k)) == multiset(xs)
    decreases |xs|
  {
    if |xs| > 0 {
      var init, last := xs[..|xs| - 1], xs[|xs| - 1];
      SelectPartition(f, init, k);
      PartitionStep(Select(f, init, k), SelectOther(f, init, k), init, last, f(last) == k);
      assert xs == init + [last];
    }
  }

  /** Adding one element to one side of a partition partitions the longer sequence. */
  lemma PartitionStep<T>(ins: seq<T>, outs: seq<T>, xs: seq<T>, x: T, left: bool)
    requires multiset(ins) + multiset(outs) == multiset(xs)
    ensures left ==> multiset(ins + [x]) + multiset(outs) == multiset(xs + [x])
    ensures !left ==> multiset(ins) + multiset(outs + [x]) == multiset(xs + [x])
  {
  }

  /** The elements of `xs` whose key is not `k`. */
  function SelectOther<T, K(==)>(f: T -> K, xs: seq<T>, k: K): seq<T>
  {
    if |xs| == 0 then []
    else SelectOther(f, xs[..|xs| - 1], k) + (if f(xs[|xs| - 1]) != k then [xs[|xs| - 1]] else [])
  }

  /** Inserting an element of another key anywhere in the input leaves the
      group of `k` as it was. */
  lemma {:induction false} OtherKeysDoNotMatter<T, K>(f: T -> K, xs: seq<T>, pos: nat, x: T, k: K)
    requires pos <= |xs| && f(x) != k
    ensures Select(f, xs[..pos] + [x] + xs[pos..], k) == Select(f, xs, k)
    decreases |xs|
  {
    var ys := xs[..pos] + [x] + xs[pos..];
    if pos == |xs| {
      assert ys[..|ys| - 1] == xs;
    } else {
      var init := xs[..|xs| - 1];
      OtherKeysDoNotMatter(f, init, pos, x, k);
      assert ys[..|ys| - 1] == init[..pos] + [x] + init[pos..];
      assert ys[|ys| - 1] == xs[|xs| - 1];
    }
  }
}
