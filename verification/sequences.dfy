/** Generic sequence helpers: mapping, flattening and lodash-style chunking. */
module Sequences {
  import opened Wrappers

  /** `s.map(f)`. */
  function Map<T, U>(s: seq<T>, f: T -> U): (r: seq<U>)
    ensures |r| == |s|
    ensures forall i :: 0 <= i < |s| ==> r[i] == f(s[i])
  {
    seq(|s|, i requires 0 <= i < |s| => f(s[i]))
  }

  lemma MapAppend<T, U>(a: seq<T>, b: seq<T>, f: T -> U)
    ensures Map(a + b, f) == Map(a, f) + Map(b, f)
  {
  }

  /** Taking out the element at `k` of `b` takes one occurrence of it out of `b`'s elements. */
  lemma MultisetRemove<T>(b: seq<T>, k: nat)
    requires k < |b|
    ensures multiset(b[..k] + b[k + 1..]) == multiset(b) - multiset{b[k]}
  {
    assert b == b[..k] + [b[k]] + b[k + 1..];
  }

  /** ... and one occurrence of its image out of the mapped elements. */
  lemma MultisetMapRemove<T, U>(b: seq<T>, k: nat, f: T -> U)
    requires k < |b|
    ensures multiset(Map(b, f)) == multiset(Map(b[..k] + b[k + 1..], f)) + multiset{f(b[k])}
  {
    assert b == b[..k] + [b[k]] + b[k + 1..];
    MapAppend(b[..k] + [b[k]], b[k + 1..], f);
    MapAppend(b[..k], [b[k]], f);
    MapAppend(b[..k], b[k + 1..], f);
  }

  lemma MultisetMapCons<T, U>(a: seq<T>, f: T -> U)
    requires |a| > 0
    ensures multiset(Map(a, f)) == multiset(Map(a[1..], f)) + multiset{f(a[0])}
  {
    assert Map(a, f) == [f(a[0])] + Map(a[1..], f);
  }

  /** Dropping the same element from both sides keeps two sequences permutations of each other. */
  lemma TailPermutation<T>(a: seq<T>, b: seq<T>, k: nat)
    requires multiset(a) == multiset(b) && 0 < |a| && k < |b| && b[k] == a[0]
    ensures multiset(a[1..]) == multiset(b[..k] + b[k + 1..])
  {
    MultisetRemove(b, k);
    assert a == [a[0]] + a[1..];
    assert multiset(a[1..]) == multiset(a) - multiset{a[0]};
  }

  lemma MultisetMapStep<U>(ma: seq<U>, mb: seq<U>, ra: seq<U>, rb: seq<U>, y: U)
    requires multiset(ra) == multiset(rb)
    requires multiset(ma) == multiset(ra) + multiset{y}
    requires multiset(mb) == multiset(rb) + multiset{y}
    ensures multiset(ma) == multiset(mb)
  {
  }

  lemma Find<T>(b: seq<T>, x: T) returns (k: nat)
    requires x in multiset(b)
    ensures k < |b| && b[k] == x
  {
    k :| 0 <= k < |b| && b[k] == x;
  }

  /** Mapping commutes with permutation: inputs holding the same elements give mapped outputs
      holding the same elements. */
  lemma {:induction false} MultisetMap<T, U>(a: seq<T>, b: seq<T>, f: T -> U)
    requires multiset(a) == multiset(b)
    ensures multiset(Map(a, f)) == multiset(Map(b, f))
    decreases |a|
  {
    if |a| > 0 {
      var k := Find(b, a[0]);
      var rest := b[..k] + b[k + 1..];
      TailPermutation(a, b, k);
      MultisetMap(a[1..], rest, f);
      MultisetMapCons(a, f);
      MultisetMapRemove(b, k, f);
      MultisetMapStep(Map(a, f), Map(b, f), Map(a[1..], f), Map(rest, f), f(a[0]));
    } else {
      assert |b| == |multiset(b)| == 0;
    }
  }

  /** Concatenation of a sequence of sequences, in order. */
  function Flatten<T>(ss: seq<seq<T>>): seq<T>
  {
    if |ss| == 0 then [] else ss[0] + Flatten(ss[1..])
  }

  lemma {:induction false} FlattenAppend<T>(a: seq<seq<T>>, b: seq<seq<T>>)
    ensures Flatten(a + b) == Flatten(a) + Flatten(b)
  {
    if |a| == 0 {
      assert a + b == b;
    } else {
      assert (a + b)[1..] == a[1..] + b;
      FlattenAppend(a[1..], b);
    }
  }

  /** Flattening each group and then the results is flattening twice. */
  lemma {:induction false} FlattenOfFlattened<T>(gs: seq<seq<seq<T>>>)
    ensures Flatten(Map(gs, Flatten)) == Flatten(Flatten(gs))
  {
    if |gs| > 0 {
      assert Map(gs, Flatten)[1..] == Map(gs[1..], Flatten);
      FlattenOfFlattened(gs[1..]);
      FlattenAppend(gs[0], Flatten(gs[1..]));
    }
  }

  /** lodash `chunk(s, n)`: consecutive pieces of `n` elements, the last one possibly shorter. */
  function Chunk<T>(s: seq<T>, n: nat): (r: seq<seq<T>>)
    requires n > 0
    ensures forall i :: 0 <= i < |r| ==> 0 < |r[i]| <= n
    ensures forall i :: 0 <= i < |r| - 1 ==> |r[i]| == n
    decreases |s|
  {
    if |s| == 0 then []
    else if |s| <= n then [s]
    else [s[..n]] + Chunk(s[n..], n)
  }

  /** Chunking loses, duplicates and reorders nothing. */
  lemma {:induction false} FlattenChunk<T>(s: seq<T>, n: nat)
    requires n > 0
    ensures Flatten(Chunk(s, n)) == s
    decreases |s|
  {
    if |s| == 0 {
    } else if |s| <= n {
      assert Flatten([s]) == s + Flatten([s][1..]);
    } else {
      var rest := Chunk(s[n..], n);
      FlattenChunk(s[n..], n);
      assert ([s[..n]] + rest)[1..] == rest;
      assert s == s[..n] + s[n..];
    }
  }

  /** `n * i` by repeated addition, which keeps the chunking proofs free of nonlinear arithmetic. */
  function Times(n: nat, i: nat): nat
  {
    if i == 0 then 0 else Times(n, i - 1) + n
  }

  lemma {:induction false} TimesIsProduct(n: nat, i: nat)
    ensures Times(n, i) == n * i
  {
    if i > 0 {
      TimesIsProduct(n, i - 1);
    }
  }

  lemma {:induction false} TimesMonotonic(n: nat, i: nat, k: nat)
    requires i <= k
    ensures Times(n, i) <= Times(n, k)
    decreases k - i
  {
    if i < k {
      TimesMonotonic(n, i + 1, k);
    }
  }

  /** When `|s|` is a multiple `k` of `n`, chunking yields exactly `k` full pieces, the i-th one
      being the slice that starts after `i` earlier pieces. */
  lemma ChunkOfMultiple<T>(s: seq<T>, n: nat, k: nat)
    requires n > 0 && |s| == Times(n, k)
    ensures |Chunk(s, n)| == k
    ensures forall i {:trigger Chunk(s, n)[i]} :: 0 <= i < k ==>
      Times(n, i) + n <= |s| && Chunk(s, n)[i] == s[Times(n, i) .. Times(n, i) + n]
  {
    ChunkCount(s, n, k);
    forall i | 0 <= i < k
      ensures Times(n, i) + n <= |s| && Chunk(s, n)[i] == s[Times(n, i) .. Times(n, i) + n]
    {
      ChunkPieceBelow(s, n, i, k);
    }
  }

  lemma ChunkPieceBelow<T>(s: seq<T>, n: nat, i: nat, k: nat)
    requires n > 0 && |s| == Times(n, k) && i < k
    ensures Times(n, i) + n <= |s| && i < |Chunk(s, n)| && Chunk(s, n)[i] == s[Times(n, i) .. Times(n, i) + n]
  {
    TimesMonotonic(n, i + 1, k);
    assert Times(n, i + 1) == Times(n, i) + n;
    ChunkPiece(s, n, i);
  }

  lemma {:induction false} ChunkCount<T>(s: seq<T>, n: nat, k: nat)
    requires n > 0 && |s| == Times(n, k)
    ensures |Chunk(s, n)| == k
    decreases k
  {
    if k > 1 {
      TimesMonotonic(n, 1, k - 1);
      assert Times(n, 1) == n by {
        assert Times(n, 0) == 0;
      }
      ChunkCount(s[n..], n, k - 1);
    } else if k == 1 {
      assert Times(n, 0) == 0;
    }
  }

  /** The i-th chunk is the i-th slice of length `n`, when the input reaches that far. */
  lemma {:induction false} ChunkPiece<T>(s: seq<T>, n: nat, i: nat)
    requires n > 0 && Times(n, i) + n <= |s|
    ensures i < |Chunk(s, n)| && Chunk(s, n)[i] == s[Times(n, i) .. Times(n, i) + n]
    decreases i
  {
    if i == 0 {
      assert Times(n, 0) == 0;
    } else {
      var a := Times(n, i - 1);
      assert Times(n, i) == a + n;
      ChunkPiece(s[n..], n, i - 1);
      assert Chunk(s, n)[i] == Chunk(s[n..], n)[i - 1];
      assert s[n..][a .. a + n] == s[a + n .. a + n + n];
    }
  }

  /** A `map` whose callback may throw: all the values when every element succeeds, otherwise
      the first failure. */
  function Collect<T, E>(rs: seq<Result<T, E>>): (r: Result<seq<T>, E>)
    ensures r.Success? <==> forall i :: 0 <= i < |rs| ==> rs[i].Success?
    ensures r.Success? ==> (|r.value| == |rs| &&
      forall i :: 0 <= i < |rs| ==> r.value[i] == rs[i].value)
    decreases |rs|
  {
    if |rs| == 0 then Success([])
    else match rs[0]
      case Failure(e) => Failure(e)
      case Success(v) =>
        assert forall i :: 0 < i < |rs| ==> rs[i] == rs[1..][i - 1];
        match Collect(rs[1..])
        case Failure(e) => Failure(e)
        case Success(vs) => Success([v] + vs)
  }

  /** A failed collection carries the error of its first failing element. */
  lemma {:induction false} CollectReportsFirstFailure<T, E>(rs: seq<Result<T, E>>)
    requires Collect(rs).Failure?
    ensures exists i :: (0 <= i < |rs| && rs[i].Failure? && Collect(rs).error == rs[i].error &&
      forall j :: 0 <= j < i ==> rs[j].Success?)
    decreases |rs|
  {
    if rs[0].Success? {
      var tail := rs[1..];
      CollectReportsFirstFailure(tail);
      var i :| 0 <= i < |tail| && tail[i].Failure? && Collect(tail).error == tail[i].error &&
        forall j :: 0 <= j < i ==> tail[j].Success?;
      assert rs[i + 1] == tail[i];
      forall j | 0 <= j < i + 1
        ensures rs[j].Success?
      {
        if j > 0 {
          assert rs[j] == tail[j - 1];
        }
      }
    }
  }
}
