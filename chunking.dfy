/**
 * Splitting a list into consecutive slices of a fixed size, the shape of every
 * `for i in range(0, len(xs), size): xs[i:i + size]` loop of the loaders.
 */
module Chunking {

  function Min(a: int, b: int): int
  {
    if a <= b then a else b
  }

  /** `[xs[i:i + size] for i in range(0, len(xs), size)]`. */
  function Chunks<T>(s: seq<T>, size: nat): seq<seq<T>>
    requires size > 0
    decreases |s|
  {
    if s == [] then [] else [s[..Min(size, |s|)]] + Chunks(s[Min(size, |s|)..], size)
  }

  function Flatten<T>(ss: seq<seq<T>>): seq<T>
  {
    if ss == [] then [] else ss[0] + Flatten(ss[1..])
  }

  /** Flattening one more slice appends it. */
  lemma FlattenSnoc<T>(ss: seq<seq<T>>, k: nat)
    requires k < |ss|
    ensures Flatten(ss[..k + 1]) == Flatten(ss[..k]) + ss[k]
  {
    assert ss[..k + 1] == ss[..k] + [ss[k]];
    FlattenAppend(ss[..k], [ss[k]]);
    assert Flatten([ss[k]]) == ss[k] + Flatten([]);
  }

  /** `(n + size - 1) // size`, the number of slices the loaders announce. */
  function CeilDiv(n: nat, size: nat): nat
    requires size > 0
  {
    (n + size - 1) / size
  }

  lemma {:induction false} FlattenAppend<T>(a: seq<seq<T>>, b: seq<seq<T>>)
    ensures Flatten(a + b) == Flatten(a) + Flatten(b)
  {
    if a == [] {
      assert a + b == b;
    } else {
      assert (a + b)[1..] == a[1..] + b;
      FlattenAppend(a[1..], b);
    }
  }

  /** Concatenating the chunks gives back the input, in order. */
  lemma {:induction false} ChunksFlatten<T>(s: seq<T>, size: nat)
    requires size > 0
    ensures Flatten(Chunks(s, size)) == s
    decreases |s|
  {
    if s != [] {
      var m := Min(size, |s|);
      ChunksFlatten(s[m..], size);
      assert s[..m] + s[m..] == s;
    }
  }

  /** Every chunk is non-empty and holds at most `size` elements. */
  lemma {:induction false} ChunksBounded<T>(s: seq<T>, size: nat)
    requires size > 0
    ensures forall c :: c in Chunks(s, size) ==> 0 < |c| <= size
    decreases |s|
  {
    if s != [] {
      ChunksBounded(s[Min(size, |s|)..], size);
    }
  }

  lemma {:induction false} MulAtLeast(k: int, size: nat)
    requires k >= 1
    ensures k * size >= size
    decreases k
  {
    if k > 1 {
      MulAtLeast(k - 1, size);
      assert k * size == (k - 1) * size + size;
    }
  }

  /** Division is determined by any quotient/remainder split of the dividend. */
  lemma DivUnique(y: int, size: nat, a: int, r: int)
    requires size > 0 && y == a * size + r && 0 <= r < size
    ensures y / size == a
  {
    var a', r' := y / size, y % size;
    assert y == a' * size + r';
    assert (a - a') * size == r' - r;
    if a - a' >= 1 {
      MulAtLeast(a - a', size);
    } else if a' - a >= 1 {
      MulAtLeast(a' - a, size);
    }
  }

  lemma CeilDivStep(n: nat, size: nat)
    requires size > 0 && n > size
    ensures CeilDiv(n, size) == CeilDiv(n - size, size) + 1
  {
    var x := n - size + size - 1;
    var q, r := x / size, x % size;
    assert x == q * size + r;
    assert n + size - 1 == (q + 1) * size + r;
    DivUnique(n + size - 1, size, q + 1, r);
  }

  /** Nothing needs no chunk, and up to `size` elements need one. */
  lemma CeilDivSmall(n: nat, size: nat)
    requires size > 0 && n <= size
    ensures CeilDiv(n, size) == if n == 0 then 0 else 1
  {
    if n == 0 {
      DivUnique(size - 1, size, 0, size - 1);
    } else {
      DivUnique(n + size - 1, size, 1, n - 1);
    }
  }

  /** The number of chunks is `ceil(|s| / size)`. */
  lemma {:induction false} ChunksCount<T>(s: seq<T>, size: nat)
    requires size > 0
    ensures |Chunks(s, size)| == CeilDiv(|s|, size)
    decreases |s|
  {
    if s == [] {
      CeilDivSmall(0, size);
    } else if |s| <= size {
      assert Chunks(s[|s|..], size) == [];
      CeilDivSmall(|s|, size);
    } else {
      ChunksCount(s[size..], size);
      CeilDivStep(|s|, size);
    }
  }

  /** The chunk after the first `i` elements, when `i` is a chunk boundary. */
  lemma ChunksStep<T>(s: seq<T>, size: nat, i: nat)
    requires size > 0 && i < |s|
    ensures Chunks(s[i..], size)
         == [s[i..Min(i + size, |s|)]] + Chunks(s[Min(i + size, |s|)..], size)
  {
    var t := s[i..];
    assert t[..Min(size, |t|)] == s[i..Min(i + size, |s|)];
    assert t[Min(size, |t|)..] == s[Min(i + size, |s|)..];
  }

  /** When the chunks of `s[i..]` are the chunks of `s` from the `k`-th on, the first `k` chunks make up `s[..i]`. */
  lemma ChunksPrefix<T>(s: seq<T>, size: nat, i: nat, k: nat)
    requires size > 0 && i <= |s| && k <= |Chunks(s, size)|
    requires Chunks(s[i..], size) == Chunks(s, size)[k..]
    ensures Flatten(Chunks(s, size)[..k]) == s[..i]
  {
    var c := Chunks(s, size);
    assert c == c[..k] + c[k..];
    FlattenAppend(c[..k], c[k..]);
    ChunksFlatten(s, size);
    ChunksFlatten(s[i..], size);
    assert s == s[..i] + s[i..];
    var f := Flatten(c[..k]);
    assert f + s[i..] == s[..i] + s[i..];
    assert |f| == i;
    assert f == (f + s[i..])[..i];
  }

  /**
   * Advancing over the `k`-th chunk, which starts at `i`: it covers
   * `s[i..end]` and the chunks after it are those of `s[end..]`.
   */
  lemma ChunkAdvance<T>(s: seq<T>, size: nat, i: nat, k: nat)
    requires size > 0 && i < |s| && k <= |Chunks(s, size)|
    requires Chunks(s[i..], size) == Chunks(s, size)[k..]
    ensures var end := Min(i + size, |s|);
      && k < |Chunks(s, size)|
      && Chunks(s, size)[k] == s[i..end]
      && Chunks(s[end..], size) == Chunks(s, size)[k + 1..]
      && s[..i] + s[i..end] == s[..end]
  {
    var end := Min(i + size, |s|);
    ChunksStep(s, size, i);
    assert Chunks(s, size)[k + 1..] == Chunks(s, size)[k..][1..];
    assert s[..i] + s[i..end] == s[..end];
  }

  /** Once the whole input is consumed, every chunk has been visited. */
  lemma ChunksDone<T>(s: seq<T>, size: nat, k: nat)
    requires size > 0 && k <= |Chunks(s, size)|
    requires Chunks(s[|s|..], size) == Chunks(s, size)[k..]
    ensures k == |Chunks(s, size)|
  {
    assert Chunks(s[|s|..], size) == [];
  }

  /** The chunks of `lists(0)`, ..., `lists(k - 1)` together: the writes of upserting each list in chunks, in turn. */
  function ChunkTotal<T>(lists: nat -> seq<T>, size: nat, k: nat): nat
    requires size > 0
  {
    if k == 0 then 0 else ChunkTotal(lists, size, k - 1) + |Chunks(lists(k - 1), size)|
  }

  lemma {:induction false} ChunkTotalMonotone<T>(lists: nat -> seq<T>, size: nat, k: nat, n: nat)
    requires size > 0 && k <= n
    ensures ChunkTotal(lists, size, k) <= ChunkTotal(lists, size, n)
    decreases n
  {
    if k < n {
      ChunkTotalMonotone(lists, size, k, n - 1);
    }
  }
}
