/** `get_chunk`: the friend list cut into consecutive slices of `amount`
    ids, one membership request per slice. */
module Chunking {

  function Min(a: int, b: int): int
  {
    if a < b then a else b
  }

  /** The ceiling of `n / k`. */
  function CeilDiv(n: nat, k: nat): nat
    requires k > 0
  {
    (n + k - 1) / k
  }

  /** The chunks joined back together, in order. */
  function Concat<T>(chunks: seq<seq<T>>): seq<T>
  {
    if |chunks| == 0 then [] else chunks[0] + Concat(chunks[1..])
  }

  /** The slices `get_chunk(xs, amount)` yields: the slice starting at every
      `amount`-th index, clipped at the end of `xs`. A negative `amount`
      makes the index range empty; a zero `amount` is refused by `range`. */
  function Chunks<T>(xs: seq<T>, amount: int): (r: seq<seq<T>>)
    requires amount != 0
    ensures amount < 0 ==> r == []
    ensures forall i :: 0 <= i < |r| ==> 0 < |r[i]| <= amount
    ensures forall i :: 0 <= i < |r| - 1 ==> |r[i]| == amount
    decreases |xs|
  {
    if amount < 0 || |xs| == 0 then []
    else if |xs| <= amount then [xs]
    else [xs[..amount]] + Chunks(xs[amount..], amount)
  }

  /** Division by `k` determines quotient and remainder. */
  lemma DivUnique(a: int, k: int, q: int, r: int)
    requires k > 0 && a == q * k + r && 0 <= r < k
    ensures a / k == q
  {
    var d := a / k - q;
    assert d * k == r - a % k;
  }

  /** Joining the chunks back together gives `xs`, in order. */
  lemma {:induction false} ChunksConcat<T>(xs: seq<T>, amount: int)
    requires amount > 0
    ensures Concat(Chunks(xs, amount)) == xs
    decreases |xs|
  {
    if |xs| > amount {
      var r := Chunks(xs, amount);
      var rest := Chunks(xs[amount..], amount);
      assert r == [xs[..amount]] + rest;
      assert r[1..] == rest;
      ChunksConcat(xs[amount..], amount);
      assert xs == xs[..amount] + xs[amount..];
    } else if |xs| > 0 {
      assert Concat([xs]) == xs + Concat([]);
    }
  }

  /** Joining three sequences does not depend on the grouping. */
  lemma ConcatAssoc<T>(a: seq<T>, b: seq<T>, c: seq<T>)
    ensures a + (b + c) == (a + b) + c
  {
  }

  lemma CeilDivStep(n: nat, k: nat)
    requires 0 < k < n
    ensures CeilDiv(n, k) == CeilDiv(n - k, k) + 1
  {
    var m := n - k + k - 1;
    var q := m / k;
    var r := m % k;
    assert m + k == (q + 1) * k + r;
    DivUnique(m + k, k, q + 1, r);
  }

  lemma MulStep(j: int, k: int)
    ensures (j + 1) * k == j * k + k
  {
  }

  /** There are `ceil(|xs| / amount)` chunks; in particular none for an empty list. */
  lemma {:induction false} ChunkCount<T>(xs: seq<T>, amount: int)
    requires amount > 0
    ensures |Chunks(xs, amount)| == CeilDiv(|xs|, amount)
    decreases |xs|
  {
    if |xs| == 0 {
      assert CeilDiv(0, amount) == 0;
    } else if |xs| <= amount {
      assert CeilDiv(|xs|, amount) == 1;
    } else {
      ChunkCount(xs[amount..], amount);
      CeilDivStep(|xs|, amount);
    }
  }

  lemma SliceOfDrop<T>(xs: seq<T>, d: nat, lo: nat, hi: nat)
    requires d <= |xs| && lo <= hi <= |xs| - d
    ensures xs[d..][lo..hi] == xs[lo + d .. hi + d]
  {
  }

  /** Chunk `i` is exactly the slice `xs[index : index + amount]` the
      generator yields for the `i`-th index of its range, `i * amount`. */
  lemma {:induction false} ChunkSlice<T>(xs: seq<T>, amount: int, i: nat)
    requires amount > 0 && i < |Chunks(xs, amount)|
    ensures i * amount < |xs|
    ensures Chunks(xs, amount)[i] == xs[i * amount .. Min(i * amount + amount, |xs|)]
    decreases i
  {
    if i > 0 {
      var rest := xs[amount..];
      var s := Chunks(rest, amount);
      assert Chunks(xs, amount) == [xs[..amount]] + s;
      var j := i - 1;
      ChunkSlice(rest, amount, j);
      MulStep(j, amount);
      var lo := j * amount;
      var hi := Min(lo + amount, |rest|);
      assert s[j] == rest[lo..hi];
      SliceOfDrop(xs, amount, lo, hi);
      assert i * amount == lo + amount && hi + amount == Min(i * amount + amount, |xs|);
    }
  }
}
