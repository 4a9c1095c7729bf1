/** Small shared vocabulary: an Option type and the few pieces of the Java
    String and List libraries the chat programs rely on, with the same edge
    cases (a `substring` past the end fails, `List.remove` deletes only the
    first occurrence). */
module Prelude {

  datatype Option<+T> = None | Some(value: T)

  /** `s.startsWith(prefix)` */
  predicate StartsWith(s: string, prefix: string) {
    |prefix| <= |s| && s[..|prefix|] == prefix
  }

  /** `s.substring(k)`: the suffix after the first `k` characters, or None
      where Java throws StringIndexOutOfBoundsException (k > length). */
  function Substring(s: string, k: nat): (r: Option<string>)
    ensures r.Some? <==> k <= |s|
    ensures r.Some? ==> |r.value| == |s| - k && s == s[..k] + r.value
  {
    if k <= |s| then Some(s[k..]) else None
  }

  predicate NoDuplicates<T(==)>(s: seq<T>) {
    forall i, j :: 0 <= i < j < |s| ==> s[i] != s[j]
  }

  /** Index of the first occurrence of `x` in `s`. */
  function FirstIndex<T(==)>(s: seq<T>, x: T): (i: nat)
    requires x in s
    ensures i < |s| && s[i] == x && x !in s[..i]
  {
    if s[0] == x then 0 else 1 + FirstIndex(s[1..], x)
  }

  /** `list.remove(x)` on a Java List: deletes the first element equal to
      `x` and leaves the list alone when there is none. */
  function RemoveFirst<T(==)>(s: seq<T>, x: T): (r: seq<T>)
    ensures x !in s ==> r == s
    ensures x in s ==> |r| == |s| - 1
    ensures multiset(r) == multiset(s) - multiset{x}
  {
    if x in s then
      var i := FirstIndex(s, x);
      assert s == s[..i] + [x] + s[i + 1..];
      s[..i] + s[i + 1..]
    else
      s
  }

  /** The list without its first `x`: everything before it, then
      everything after it. */
  lemma RemoveFirstSplits<T>(s: seq<T>, x: T)
    ensures x in s ==> var i := FirstIndex(s, x); RemoveFirst(s, x) == s[..i] + s[i + 1..]
  {
  }

  /** Position `k` of the shortened list is position `k` or `k + 1` of the
      original, depending on which side of the removed element it lies. */
  lemma RemoveFirstIndex<T>(s: seq<T>, x: T, k: int)
    requires x in s && 0 <= k < |RemoveFirst(s, x)|
    ensures RemoveFirst(s, x)[k] == s[if k < FirstIndex(s, x) then k else k + 1]
  {
    var i := FirstIndex(s, x);
    var r := RemoveFirst(s, x);
    assert r == s[..i] + s[i + 1..];
    if k < i {
      assert r[k] == s[..i][k];
    } else {
      assert r[k] == s[i + 1..][k - i];
    }
  }

  /** Removing from a duplicate-free list keeps it duplicate-free. */
  lemma RemoveFirstKeepsNoDuplicates<T>(s: seq<T>, x: T)
    requires NoDuplicates(s)
    ensures NoDuplicates(RemoveFirst(s, x))
  {
    if x in s {
      var r := RemoveFirst(s, x);
      forall a, b | 0 <= a < b < |r|
        ensures r[a] != r[b]
      {
        RemoveFirstIndex(s, x, a);
        RemoveFirstIndex(s, x, b);
      }
    }
  }

  /** On a duplicate-free list, removing `x` removes every trace of it and
      nothing else. */
  lemma RemoveFirstMembership<T>(s: seq<T>, x: T, y: T)
    requires NoDuplicates(s)
    ensures y in RemoveFirst(s, x) <==> y in s && y != x
  {
    if x in s {
      var r := RemoveFirst(s, x);
      var i := FirstIndex(s, x);
      if y in r {
        var k :| 0 <= k < |r| && r[k] == y;
        RemoveFirstIndex(s, x, k);
      }
      if y in s && y != x {
        var k :| 0 <= k < |s| && s[k] == y;
        if k < i {
          RemoveFirstIndex(s, x, k);
        } else {
          RemoveFirstIndex(s, x, k - 1);
        }
      }
    }
  }

  /** Appending a new element keeps a list duplicate-free. */
  lemma AppendFreshNoDuplicates<T>(s: seq<T>, x: T)
    requires NoDuplicates(s) && x !in s
    ensures NoDuplicates(s + [x])
  {
  }
}
