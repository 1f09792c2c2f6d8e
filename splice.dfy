/** In-place array surgery used by the component, as functions on sequences:
    JavaScript's `splice` (removing one element, inserting one element) and the
    two helpers of the Angular CDK drag-and-drop package, `moveItemInArray` and
    `transferArrayItem`. Indices are required to be in range; the clamping the
    CDK helpers perform on out-of-range indices is not part of this model. */
module Splice {

  /** A sequence is what comes before index `i`, the element at `i`, and
      what comes after. */
  lemma {:induction false} SplitAt<T>(s: seq<T>, i: nat)
    requires i < |s|
    ensures s == s[..i] + [s[i]] + s[i + 1..]
  {
  }

  /** A non-empty sequence is its front followed by its last element. */
  lemma {:induction false} SplitLast<T>(s: seq<T>)
    requires s != []
    ensures s == s[..|s| - 1] + [s[|s| - 1]]
    ensures multiset(s) == multiset(s[..|s| - 1]) + multiset{s[|s| - 1]}
  {
    assert s == s[..|s| - 1] + [s[|s| - 1]];
  }

  /** A non-empty sequence is its first element followed by the rest. */
  lemma {:induction false} SplitFirst<T>(s: seq<T>)
    requires s != []
    ensures s == [s[0]] + s[1..]
    ensures multiset(s) == multiset{s[0]} + multiset(s[1..])
  {
    assert s == [s[0]] + s[1..];
  }

  /** Multiset union is commutative. */
  lemma {:induction false} MultisetUnionSwap<T>(m: multiset<T>, n: multiset<T>)
    ensures m + n == n + m
  {
    assert forall y :: (m + n)[y] == (n + m)[y];
  }

  /** Taking the same element out of two equal multisets leaves them equal. */
  lemma {:induction false} MultisetCancel<T>(x: T, m: multiset<T>, n: multiset<T>)
    requires multiset{x} + m == multiset{x} + n
    ensures m == n
  {
    forall y ensures m[y] == n[y] {
      assert (multiset{x} + m)[y] == (multiset{x} + n)[y];
    }
  }

  /** A permutation of the empty sequence is empty. */
  lemma {:induction false} PermutationEmpty<T>(b: seq<T>)
    requires multiset(b) == multiset{}
    ensures b == []
  {
    assert |b| == |multiset(b)| == 0;
  }

  /** The first element of `a` sits somewhere in a permutation `b` of `a`;
      without it, the rests are permutations of each other. */
  lemma {:induction false} PermutationHead<T>(a: seq<T>, b: seq<T>) returns (k: nat)
    requires a != [] && multiset(a) == multiset(b)
    ensures k < |b| && b[k] == a[0]
    ensures multiset(a[1..]) == multiset(RemoveAt(b, k))
  {
    assert a[0] in multiset(b) by {
      assert a[0] in multiset(a);
    }
    k :| 0 <= k < |b| && b[k] == a[0];
    SplitFirst(a);
    MultisetCancel(a[0], multiset(a[1..]), multiset(RemoveAt(b, k)));
  }

  /** The parts of `a + [x]`. Stated for any element type, so that proofs
      about item lists can use it without unfolding their own functions. */
  lemma {:induction false} SnocParts<T>(a: seq<T>, x: T)
    ensures (a + [x])[..|a|] == a && (a + [x])[|a|] == x
  {
  }

  /** `s.splice(i, 1)`: `s` without its element at index `i`. */
  function RemoveAt<T>(s: seq<T>, i: nat): (r: seq<T>)
    requires i < |s|
    ensures |r| == |s| - 1
    ensures multiset(r) + multiset{s[i]} == multiset(s)
  {
    assert s == s[..i] + [s[i]] + s[i + 1..];
    s[..i] + s[i + 1..]
  }

  /** After `s.splice(i, 1)` the elements before `i` stay put and those after
      it move down by one. */
  lemma {:induction false} RemoveAtIndices<T>(s: seq<T>, i: nat)
    requires i < |s|
    ensures forall j :: 0 <= j < i ==> RemoveAt(s, i)[j] == s[j]
    ensures forall j :: i <= j < |s| - 1 ==> RemoveAt(s, i)[j] == s[j + 1]
  {
  }

  /** `s.splice(i, 0, x)`: `s` with `x` inserted so that it lands at index `i`. */
  function InsertAt<T>(s: seq<T>, i: nat, x: T): (r: seq<T>)
    requires i <= |s|
    ensures |r| == |s| + 1 && r[i] == x
    ensures multiset(r) == multiset(s) + multiset{x}
  {
    assert s == s[..i] + s[i..];
    s[..i] + [x] + s[i..]
  }

  /** After `s.splice(i, 0, x)` the elements before `i` stay put and those
      from `i` on move up by one. */
  lemma {:induction false} InsertAtIndices<T>(s: seq<T>, i: nat, x: T)
    requires i <= |s|
    ensures forall j :: 0 <= j < i ==> InsertAt(s, i, x)[j] == s[j]
    ensures forall j :: i < j <= |s| ==> InsertAt(s, i, x)[j] == s[j - 1]
  {
  }

  /** Inserting at the front of the middle block of `pre + mid + post`. */
  lemma {:induction false} InsertAtBlock<T>(pre: seq<T>, mid: seq<T>, post: seq<T>, x: T)
    ensures InsertAt(pre + mid + post, |pre|, x) == pre + ([x] + mid) + post
  {
    var s := pre + mid + post;
    assert s[..|pre|] == pre && s[|pre|..] == mid + post;
  }

  /** Removing an element from the tail `s[m..]` of `p + s[m..]`. */
  lemma {:induction false} RemoveFromTail<T>(p: seq<T>, s: seq<T>, m: nat, x: nat)
    requires m <= x < |s|
    ensures (p + s[m..])[|p| + (x - m)] == s[x]
    ensures RemoveAt(p + s[m..], |p| + (x - m)) == p + s[m..x] + s[x + 1..]
  {
    var c, j := p + s[m..], |p| + (x - m);
    assert c[..j] == p + s[m..x];
    assert c[j + 1..] == s[x + 1..];
  }

  /** Splicing out what was just spliced in gives back the original. */
  lemma {:induction false} RemoveInsert<T>(s: seq<T>, i: nat, x: T)
    requires i <= |s|
    ensures RemoveAt(InsertAt(s, i, x), i) == s
  {
  }

  /** CDK `moveItemInArray(s, from, to)`: the element at `from` moves to index
      `to`; the other elements keep their relative order. */
  function MoveItemInArray<T>(s: seq<T>, from: nat, to: nat): (r: seq<T>)
    requires from < |s| && to < |s|
    ensures |r| == |s| && r[to] == s[from]
    ensures multiset(r) == multiset(s)
    ensures RemoveAt(r, to) == RemoveAt(s, from)
  {
    RemoveInsert(RemoveAt(s, from), to, s[from]);
    InsertAt(RemoveAt(s, from), to, s[from])
  }

  /** CDK `transferArrayItem(src, tgt, from, to)`: the element of `src` at
      `from` is taken out of `src` and inserted into `tgt` at `to`. The result
      is the pair (new `src`, new `tgt`). */
  function TransferArrayItem<T>(src: seq<T>, tgt: seq<T>, from: nat, to: nat): (r: (seq<T>, seq<T>))
    requires from < |src| && to <= |tgt|
    ensures |r.0| == |src| - 1 && |r.1| == |tgt| + 1
    ensures r.1[to] == src[from]
    ensures InsertAt(r.0, from, src[from]) == src
    ensures RemoveAt(r.1, to) == tgt
    ensures multiset(r.0) + multiset(r.1) == multiset(src) + multiset(tgt)
  {
    var src' := RemoveAt(src, from);
    assert InsertAt(src', from, src[from]) == src by {
      InsertAtBlock(src[..from], [], src[from + 1..], src[from]);
      SplitAt(src, from);
    }
    RemoveInsert(tgt, to, src[from]);
    (src', InsertAt(tgt, to, src[from]))
  }

  /** The elements of `s` in the opposite order. */
  function Reversed<T>(s: seq<T>): (r: seq<T>)
    ensures |r| == |s|
    ensures forall k :: 0 <= k < |s| ==> r[k] == s[|s| - 1 - k]
  {
    if s == [] then [] else [s[|s| - 1]] + Reversed(s[..|s| - 1])
  }
}
