/** Order-preserving selection from a sequence, the shape of every filtering loop in the tool. */
module Seqs {

  /** `sub` is obtained from `s` by deleting elements, keeping the rest in order. */
  ghost predicate IsSubsequence<T>(sub: seq<T>, s: seq<T>)
    decreases |s|
  {
    if sub == [] then true
    else if s == [] then false
    else (sub[0] == s[0] && IsSubsequence(sub[1..], s[1..])) || IsSubsequence(sub, s[1..])
  }

  /**
   The elements of `s` that satisfy `keep`, in their original order: a Go `for range`
   loop that appends the elements it does not `continue` past.
   */
  function Select<T>(s: seq<T>, keep: T -> bool): (r: seq<T>)
    ensures |r| <= |s|
    ensures forall x :: x in r ==> x in s && keep(x)
    decreases |s|
  {
    if s == [] then []
    else if keep(s[0]) then [s[0]] + Select(s[1..], keep)
    else Select(s[1..], keep)
  }

  /** Selecting from one element keeps it exactly when it passes. */
  lemma SelectOne<T>(x: T, keep: T -> bool)
    ensures Select([x], keep) == if keep(x) then [x] else []
  {
    assert [x][1..] == [];
  }

  /** The selection keeps the order of `s` and loses no element that satisfies `keep`. */
  lemma {:induction false} SelectExact<T(!new)>(s: seq<T>, keep: T -> bool)
    ensures IsSubsequence(Select(s, keep), s)
    ensures forall x :: keep(x) ==> multiset(Select(s, keep))[x] == multiset(s)[x]
    decreases |s|
  {
    if s != [] {
      SelectExact(s[1..], keep);
      var rest := Select(s[1..], keep);
      assert s == [s[0]] + s[1..];
      if keep(s[0]) {
        assert ([s[0]] + rest)[1..] == rest;
      }
    }
  }

  /** When every element satisfies `keep`, nothing is dropped. */
  lemma {:induction false} SelectAll<T>(s: seq<T>, keep: T -> bool)
    ensures (forall i :: 0 <= i < |s| ==> keep(s[i])) ==> Select(s, keep) == s
    decreases |s|
  {
    if s != [] {
      SelectAll(s[1..], keep);
    }
  }

  /** Selecting from a concatenation selects from each part. */
  lemma {:induction false} SelectAppend<T>(a: seq<T>, b: seq<T>, keep: T -> bool)
    ensures Select(a + b, keep) == Select(a, keep) + Select(b, keep)
    decreases |a|
  {
    if a == [] {
      assert a + b == b;
    } else {
      assert (a + b)[0] == a[0] && (a + b)[1..] == a[1..] + b;
      SelectAppend(a[1..], b, keep);
    }
  }

  /** Selecting from a list with one more element at the end. */
  lemma SelectSnoc<T>(a: seq<T>, x: T, keep: T -> bool)
    ensures Select(a + [x], keep) == Select(a, keep) + (if keep(x) then [x] else [])
  {
    SelectAppend(a, [x], keep);
    SelectOne(x, keep);
  }

  /** A kept element moves from the unvisited rest to the end of the selection so far. */
  lemma SelectKeepsNext<T>(s: seq<T>, k: nat, keep: T -> bool)
    requires k < |s| && keep(s[k])
    ensures Select(s[..k + 1], keep) + s[k + 1..] == Select(s[..k], keep) + s[k..]
  {
    var kept := Select(s[..k], keep);
    assert s[..k + 1] == s[..k] + [s[k]];
    SelectSnoc(s[..k], s[k], keep);
    assert s[k..] == [s[k]] + s[k + 1..];
    assert kept + [s[k]] + s[k + 1..] == kept + ([s[k]] + s[k + 1..]);
  }
}
