// Sequence idiom shared by the converters and the byte-stream parsers.

module Sequences {

  function Min(a: nat, b: nat): nat { if a < b then a else b }

  // The concatenation of f over the elements of s.
  function FlatMap<A, B>(f: A -> seq<B>, s: seq<A>): seq<B> {
    if s == [] then [] else f(s[0]) + FlatMap(f, s[1..])
  }

  lemma {:induction false} FlatMapConcat<A, B>(f: A -> seq<B>, a: seq<A>, b: seq<A>)
    ensures FlatMap(f, a + b) == FlatMap(f, a) + FlatMap(f, b)
  {
    if a == [] {
      assert a + b == b;
    } else {
      assert (a + b)[0] == a[0] && (a + b)[1..] == a[1..] + b;
      FlatMapConcat(f, a[1..], b);
    }
  }

  lemma FlatMapOne<A, B>(f: A -> seq<B>, x: A)
    ensures FlatMap(f, [x]) == f(x)
  {
    assert [x][1..] == [];
  }

  lemma FlatMapSnoc<A, B>(f: A -> seq<B>, s: seq<A>, x: A)
    ensures FlatMap(f, s + [x]) == FlatMap(f, s) + f(x)
  {
    FlatMapConcat(f, s, [x]);
    FlatMapOne(f, x);
  }

  // Mapping a longer sequence never yields less.
  lemma FlatMapPrefix<A, B>(f: A -> seq<B>, a: seq<A>, b: seq<A>)
    requires a <= b
    ensures FlatMap(f, a) <= FlatMap(f, b)
  {
    assert b == a + b[|a|..];
    FlatMapConcat(f, a, b[|a|..]);
  }

  // was, overwritten with out from index at on.
  function Splice<T>(was: seq<T>, at: nat, out: seq<T>): (r: seq<T>)
    requires at + |out| <= |was|
    ensures |r| == |was|
  {
    was[..at] + out + was[at + |out|..]
  }

  lemma SpliceAppend<T>(was: seq<T>, at: nat, out: seq<T>, more: seq<T>)
    requires at + |out| + |more| <= |was|
    ensures Splice(Splice(was, at, out), at + |out|, more) == Splice(was, at, out + more)
  {
  }

  lemma SpliceNothing<T>(was: seq<T>, at: nat)
    requires at <= |was|
    ensures Splice(was, at, []) == was
  {
  }

  lemma SpliceRead<T>(was: seq<T>, at: nat, out: seq<T>)
    requires at + |out| <= |was|
    ensures Splice(was, at, out)[at..at + |out|] == out
  {
  }

  // Taking n elements of a + b does not reach b.
  lemma TakeFront<T>(a: seq<T>, b: seq<T>, n: nat)
    requires n <= |a|
    ensures (a + b)[..n] == a[..n] && (a + b)[n..] == a[n..] + b
  {
  }

  lemma DropBehind<T>(a: seq<T>, b: seq<T>, n: nat)
    requires n <= |b|
    ensures (a + b)[|a| + n..] == b[n..]
  {
  }

  lemma DropDrop<T>(a: seq<T>, b: seq<T>, k: nat, n: nat)
    requires k <= |a + b| && |a| <= k + n <= |a + b|
    ensures (a + b)[k..][n..] == b[k + n - |a|..]
  {
  }

  lemma SliceWithin<T>(s: seq<T>, part: seq<T>, at: nat, i: nat, j: nat)
    requires at + |part| <= |s| && s[at..at + |part|] == part && i <= j <= |part|
    ensures s[at + i..at + j] == part[i..j]
  {
    forall k | i <= k < j ensures s[at + k] == part[k] { assert part[k] == s[at..at + |part|][k]; }
  }

  lemma SliceOfSlice<T>(s: seq<T>, from: nat, to: nat, i: nat, j: nat)
    requires from <= i <= j <= to <= |s|
    ensures s[from..to][i - from..][..j - i] == s[i..j]
  {
  }

  // Going on for k elements behind the first n.
  lemma GoOn<T>(s: seq<T>, n: nat, k: nat)
    requires n + k <= |s|
    ensures s[n..][..k] == s[n..n + k] && s[n..][k..] == s[n + k..] && s[..n] + s[n..n + k] == s[..n + k]
  {
  }

  lemma Cut<T>(s: seq<T>, i: nat)
    requires i <= |s|
    ensures s == s[..i] + s[i..]
  {
  }

  // Behind front, the part of s from i to j follows the part up to i.
  lemma PartFollows<T>(front: seq<T>, s: seq<T>, i: nat, j: nat)
    requires i <= j <= |s|
    ensures (front + s[..i]) + s[i..j] == front + s[..j] <= front + s
  {
  }

  lemma TakeNext<T>(s: seq<T>, i: nat, j: nat)
    requires i <= j < |s|
    ensures s[i..j + 1] == s[i..j] + [s[j]] && s[..j + 1] == s[..j] + [s[j]]
  {
  }
}
