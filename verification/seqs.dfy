/** Sequence helpers shared by the parsers and the tables: flattening a per-item
    mapping, de-duplication in first-seen order (`list(dict.fromkeys(s))`) and first occurrences. */
module Seqs {

  /** `[y for x in xs for y in f(x)]`. */
  function FlatMap<A, B>(f: A -> seq<B>, xs: seq<A>): seq<B> {
    if xs == [] then [] else FlatMap(f, xs[..|xs| - 1]) + f(xs[|xs| - 1])
  }

  lemma FlatMapSnoc<A, B>(f: A -> seq<B>, xs: seq<A>, i: nat)
    requires i < |xs|
    ensures FlatMap(f, xs[..i + 1]) == FlatMap(f, xs[..i]) + f(xs[i])
  {
    assert xs[..i + 1][..i] == xs[..i];
  }

  lemma {:induction false} FlatMapAppend<A, B>(f: A -> seq<B>, a: seq<A>, b: seq<A>)
    ensures FlatMap(f, a + b) == FlatMap(f, a) + FlatMap(f, b)
  {
    if b == [] {
      assert a + b == a;
    } else {
      var b' := b[..|b| - 1];
      assert (a + b)[..|a + b| - 1] == a + b';
      assert (a + b)[|a + b| - 1] == b[|b| - 1];
      FlatMapAppend(f, a, b');
    }
  }

  lemma {:induction false} FlatMapMembers<A, B>(f: A -> seq<B>, xs: seq<A>, y: B)
    ensures y in FlatMap(f, xs) <==> exists i :: 0 <= i < |xs| && y in f(xs[i])
  {
    if xs != [] {
      var n := |xs| - 1;
      var q := xs[..n];
      FlatMapMembers(f, q, y);
      if y in FlatMap(f, xs) && y in FlatMap(f, q) {
        var i :| 0 <= i < |q| && y in f(q[i]);
        assert xs[i] == q[i];
      }
      if exists i :: 0 <= i < |xs| && y in f(xs[i]) {
        var i :| 0 <= i < |xs| && y in f(xs[i]);
        if i < n {
          assert q[i] == xs[i];
        }
      }
    }
  }

  ghost predicate NoDup<T>(s: seq<T>) {
    forall i, j :: 0 <= i < j < |s| ==> s[i] != s[j]
  }

  /** `list(dict.fromkeys(s))`: each element once, at its first occurrence. */
  function Dedup<T(==)>(s: seq<T>): (r: seq<T>)
    ensures NoDup(r)
    ensures forall i :: 0 <= i < |r| ==> r[i] in s
    ensures forall i :: 0 <= i < |s| ==> s[i] in r
  {
    if s == [] then []
    else
      var d := Dedup(s[..|s| - 1]);
      assert forall i :: 0 <= i < |s| - 1 ==> s[i] == s[..|s| - 1][i];
      if s[|s| - 1] in d then d else d + [s[|s| - 1]]
  }

  /** The position of the first occurrence of `x` in `s`. */
  function FirstIndex<T(==)>(s: seq<T>, x: T): (k: nat)
    requires x in s
    ensures k < |s| && s[k] == x && x !in s[..k]
  {
    if s[0] == x then 0
    else
      var k := FirstIndex(s[1..], x);
      assert s[..k + 1] == [s[0]] + s[1..][..k];
      k + 1
  }

  lemma {:induction false} FirstIndexSnoc<T>(s: seq<T>, y: T, x: T)
    requires x in s
    ensures FirstIndex(s + [y], x) == FirstIndex(s, x)
  {
    if s[0] != x {
      assert (s + [y])[1..] == s[1..] + [y];
      FirstIndexSnoc(s[1..], y, x);
    }
  }

  /** De-duplication keeps first-seen order: elements come by increasing first occurrence in `s`. */
  lemma {:induction false} DedupFirstSeenOrder<T>(s: seq<T>)
    ensures forall i, j :: 0 <= i < j < |Dedup(s)| ==>
              FirstIndex(s, Dedup(s)[i]) < FirstIndex(s, Dedup(s)[j])
  {
    if s != [] {
      var p := s[..|s| - 1];
      var y := s[|s| - 1];
      assert s == p + [y];
      DedupFirstSeenOrder(p);
      var d := Dedup(p);
      forall i | 0 <= i < |d|
        ensures FirstIndex(s, d[i]) == FirstIndex(p, d[i]) < |p|
      {
        FirstIndexSnoc(p, y, d[i]);
      }
      if y !in d {
        assert FirstIndex(s, y) == |p|;
      }
    }
  }

  /** A sequence without repetitions is its own de-duplication. */
  lemma {:induction false} DedupOfDistinct<T>(s: seq<T>)
    requires NoDup(s)
    ensures Dedup(s) == s
  {
    if s != [] {
      var p := s[..|s| - 1];
      DedupOfDistinct(p);
      assert s == p + [s[|s| - 1]];
    }
  }
}
