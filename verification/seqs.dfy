/** Order-preserving selection and pairing on sequences, the reference definitions the
    loops of the pipeline are compared with. */
module Seqs {

  /** The elements of `s` that satisfy `p`, in their original order. */
  function Filter<T>(s: seq<T>, p: T -> bool): (r: seq<T>)
    ensures |r| <= |s|
    decreases |s|
  {
    if |s| == 0 then []
    else Filter(s[..|s| - 1], p) + (if p(s[|s| - 1]) then [s[|s| - 1]] else [])
  }

  /** Selection keeps exactly the satisfying elements. */
  lemma {:induction false} FilterMembers<T>(s: seq<T>, p: T -> bool)
    ensures forall x :: x in Filter(s, p) <==> x in s && p(x)
    decreases |s|
  {
    if |s| > 0 {
      FilterMembers(s[..|s| - 1], p);
      assert s == s[..|s| - 1] + [s[|s| - 1]];
    }
  }

  /** Selection distributes over concatenation. */
  lemma {:induction false} FilterConcat<T>(a: seq<T>, b: seq<T>, p: T -> bool)
    ensures Filter(a + b, p) == Filter(a, p) + Filter(b, p)
    decreases |b|
  {
    if |b| > 0 {
      assert (a + b)[..|a + b| - 1] == a + b[..|b| - 1];
      FilterConcat(a, b[..|b| - 1], p);
    } else {
      assert a + b == a;
    }
  }

  /** Selecting from a sequence whose elements all satisfy `p` keeps all of it. */
  lemma {:induction false} FilterAll<T>(s: seq<T>, p: T -> bool)
    requires forall i :: 0 <= i < |s| ==> p(s[i])
    ensures Filter(s, p) == s
    decreases |s|
  {
    if |s| > 0 {
      FilterAll(s[..|s| - 1], p);
    }
  }

  /** Selecting from a sequence none of whose elements satisfy `p` keeps nothing. */
  lemma {:induction false} FilterNone<T>(s: seq<T>, p: T -> bool)
    requires forall i :: 0 <= i < |s| ==> !p(s[i])
    ensures Filter(s, p) == []
    decreases |s|
  {
    if |s| > 0 {
      FilterNone(s[..|s| - 1], p);
    }
  }

  /** Python's `zip`: pairs of elements at equal positions, as many as the shorter input has. */
  function Zip<A, B>(a: seq<A>, b: seq<B>): (r: seq<(A, B)>)
    ensures |r| == if |a| <= |b| then |a| else |b|
  {
    var n := if |a| <= |b| then |a| else |b|;
    seq(n, i requires 0 <= i < n => (a[i], b[i]))
  }

  function Firsts<A, B>(s: seq<(A, B)>): (r: seq<A>)
    ensures |r| == |s|
  {
    seq(|s|, i requires 0 <= i < |s| => s[i].0)
  }

  function Seconds<A, B>(s: seq<(A, B)>): (r: seq<B>)
    ensures |r| == |s|
  {
    seq(|s|, i requires 0 <= i < |s| => s[i].1)
  }

  /** Unzipping and zipping again gives the pairs back. */
  lemma ZipOfUnzip<A, B>(s: seq<(A, B)>)
    ensures Zip(Firsts(s), Seconds(s)) == s
  {
  }

  /** Zipping equally long sequences loses nothing of the first. */
  lemma FirstsOfZip<A, B>(a: seq<A>, b: seq<B>)
    requires |a| == |b|
    ensures Firsts(Zip(a, b)) == a
  {
  }

  /** Taking a prefix commutes with putting an element in front. */
  lemma PrefixOfCons<T>(x: T, s: seq<T>, k: nat)
    requires 0 < k <= |s| + 1
    ensures ([x] + s)[..k] == [x] + s[..k - 1]
  {
  }
}
