/**
 The chunking of a bulk upsert: the batch is cut into consecutive slices of a
 fixed size, the last of which may be shorter (JavaScript's `slice` clamps its
 end to the length of the array).
 */
module Chunking {

  function Min(a: int, b: int): int
  {
    if a <= b then a else b
  }

  /** The slices `s[0..n]`, `s[n..2n]`, ... visited by a loop that advances by `n`. */
  function Chunks<T>(s: seq<T>, n: nat): seq<seq<T>>
    requires n > 0
    decreases |s|
  {
    if s == [] then []
    else
      var k := Min(n, |s|);
      [s[..k]] + Chunks(s[k..], n)
  }

  function Flatten<T>(ss: seq<seq<T>>): seq<T>
  {
    if ss == [] then [] else ss[0] + Flatten(ss[1..])
  }

  /** Every element is visited exactly once, in its original order. */
  lemma {:induction false} FlattenChunks<T>(s: seq<T>, n: nat)
    requires n > 0
    ensures Flatten(Chunks(s, n)) == s
    decreases |s|
  {
    if s != [] {
      var k := Min(n, |s|);
      FlattenChunks(s[k..], n);
      assert s == s[..k] + s[k..];
    }
  }

  /** No slice is empty, none is longer than `n`, and only the last may be shorter. */
  lemma {:induction false} ChunkSizes<T>(s: seq<T>, n: nat)
    requires n > 0
    ensures forall j :: 0 <= j < |Chunks(s, n)| ==> 0 < |Chunks(s, n)[j]| <= n
    ensures forall j :: 0 <= j < |Chunks(s, n)| - 1 ==> |Chunks(s, n)[j]| == n
    decreases |s|
  {
    if s != [] {
      var k := Min(n, |s|);
      ChunkSizes(s[k..], n);
      var cs := Chunks(s, n);
      assert cs == [s[..k]] + Chunks(s[k..], n);
      forall j | 0 <= j < |cs| - 1 ensures |cs[j]| == n {
        if j == 0 {
          assert |Chunks(s[k..], n)| > 0;
        }
      }
    }
  }

  /** The chunk with index `j` exists exactly when the loop counter `j * n` is still inside the batch. */
  lemma {:induction false} ChunkCount<T>(s: seq<T>, n: nat, j: nat)
    requires n > 0
    ensures j < |Chunks(s, n)| <==> j * n < |s|
    decreases |s|
  {
    if s != [] && j > 0 {
      var k := Min(n, |s|);
      ChunkCount(s[k..], n, j - 1);
      assert (j - 1) * n + n == j * n;
    }
  }

  /** The chunk with index `j` is the slice the loop takes when its counter is `j * n`. */
  lemma {:induction false} ChunkAt<T>(s: seq<T>, n: nat, j: nat)
    requires n > 0
    requires j * n < |s|
    ensures j < |Chunks(s, n)|
    ensures Chunks(s, n)[j] == s[j * n .. Min(j * n + n, |s|)]
    decreases |s|
  {
    ChunkCount(s, n, j);
    if j > 0 {
      var k := Min(n, |s|);
      assert (j - 1) * n + n == j * n;
      ChunkAt(s[k..], n, j - 1);
      assert s[k..][(j - 1) * n .. Min((j - 1) * n + n, |s| - k)] == s[j * n .. Min(j * n + n, |s|)];
    }
  }
}
