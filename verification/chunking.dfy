/** The scheduler's partition of the document list into consecutive waves
    of at most `Limit` documents (the loop `for (i = 0; i < n; i += 5)
    chunk = list.slice(i, i + 5)`). */
module Chunking {

  /** The concurrency limit: documents in flight at once. */
  const Limit: nat := 5

  function Min(a: int, b: int): int {
    if a < b then a else b
  }

  function Flatten<T>(cs: seq<seq<T>>): seq<T>
    decreases |cs|
  {
    if cs == [] then [] else cs[0] + Flatten(cs[1..])
  }

  /** The waves: consecutive slices that together make up the list, each of
      one to `Limit` documents, every one but the last full, and
      ceil(n / Limit) of them. */
  function Chunks<T>(xs: seq<T>): (cs: seq<seq<T>>)
    ensures Flatten(cs) == xs
    ensures forall k | 0 <= k < |cs| :: 0 < |cs[k]| <= Limit
    ensures forall k | 0 <= k < |cs| - 1 :: |cs[k]| == Limit
    decreases |xs|
  {
    if xs == [] then []
    else
      var n := Min(|xs|, Limit);
      var rest := Chunks(xs[n..]);
      assert xs[..n] + xs[n..] == xs;
      [xs[..n]] + rest
  }

  /** There are ceil(n / Limit) waves. */
  lemma {:induction false} ChunkCount<T>(xs: seq<T>)
    ensures |Chunks(xs)| == (|xs| + Limit - 1) / Limit
    decreases |xs|
  {
    if xs != [] {
      var n := Min(|xs|, Limit);
      ChunkCount(xs[n..]);
      assert |Chunks(xs)| == 1 + |Chunks(xs[n..])|;
    }
  }

  lemma SliceOfSuffix<T>(xs: seq<T>, n: nat, a: nat, b: nat)
    requires n <= |xs| && a <= b <= |xs| - n
    ensures xs[n..][a..b] == xs[n + a..n + b]
  {
  }

  /** Wave `k` is the slice `xs[Limit * k .. Limit * k + Limit]`, cut at the end of the list. */
  lemma {:induction false} ChunkIsSlice<T>(xs: seq<T>, k: nat)
    requires k < |Chunks(xs)|
    ensures Limit * k < |xs|
    ensures Chunks(xs)[k] == xs[Limit * k..Min(Limit * k + Limit, |xs|)]
    decreases k
  {
    if k > 0 {
      var n := Min(|xs|, Limit);
      var rest := xs[n..];
      var cs := Chunks(rest);
      assert Chunks(xs) == [xs[..n]] + cs;
      assert k - 1 < |cs|;
      assert rest != [];
      assert n == Limit;
      ChunkIsSlice(rest, k - 1);
      var m := Limit * (k - 1);
      assert Limit * k == Limit + m;
      var hi := Min(m + Limit, |rest|);
      assert Limit + hi == Min(Limit * k + Limit, |xs|);
      SliceOfSuffix(xs, Limit, m, hi);
    }
  }

  /** Twelve documents form three waves: 5, 5 and 2. */
  lemma TwelveMakeThreeWaves<T>(xs: seq<T>)
    requires |xs| == 12
    ensures |Chunks(xs)| == 3
    ensures |Chunks(xs)[0]| == 5 && |Chunks(xs)[1]| == 5 && |Chunks(xs)[2]| == 2
  {
    var cs := Chunks(xs);
    ChunkCount(xs);
    assert |Flatten(cs)| == |cs[0]| + |cs[1]| + |cs[2]| by {
      assert Flatten(cs[2..]) == cs[2] + Flatten(cs[3..]);
      assert cs[3..] == [];
    }
  }
}
