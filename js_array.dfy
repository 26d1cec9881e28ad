/** The JavaScript array operations the table and its callbacks use:
    `findIndex`, `splice` and assignment to an index. Arrays are values here;
    the objects that hold them reassign the whole sequence. */
module JsArray {

  function Min(a: int, b: int): int { if a <= b then a else b }
  function Max(a: int, b: int): int { if a <= b then b else a }

  /** `s.findIndex(p)`: the first index whose element satisfies p, or -1. */
  function FindIndex<T>(s: seq<T>, p: T -> bool): (r: int)
    ensures -1 <= r < |s|
    ensures r == -1 <==> forall k :: 0 <= k < |s| ==> !p(s[k])
    ensures r >= 0 ==> p(s[r]) && forall k :: 0 <= k < r ==> !p(s[k])
  {
    if s == [] then -1
    else if p(s[0]) then 0
    else
      var r := FindIndex(s[1..], p);
      if r == -1 then -1 else r + 1
  }

  /** `s.filter(p)`: the elements that satisfy p, in their order. */
  function Filter<T>(s: seq<T>, p: T -> bool): (r: seq<T>)
    ensures |r| <= |s|
  {
    if s == [] then [] else (if p(s[0]) then [s[0]] else []) + Filter(s[1..], p)
  }

  /** An element is kept exactly when it is in s and satisfies p. */
  lemma {:induction false} FilterMembers<T>(s: seq<T>, p: T -> bool)
    ensures forall x :: x in Filter(s, p) <==> x in s && p(x)
  {
    if s != [] {
      FilterMembers(s[1..], p);
      assert s == [s[0]] + s[1..];
    }
  }

  /** A one-element array keeps its element exactly when it satisfies p. */
  lemma FilterOne<T>(x: T, p: T -> bool)
    ensures Filter([x], p) == if p(x) then [x] else []
  {
    assert [x][1..] == [];
  }

  /** Filtering works element by element: the result for a concatenation is
      the concatenation of the results. With FilterOne this fixes the result:
      the elements that satisfy p, each once, in their original order. */
  lemma {:induction false} FilterConcat<T>(a: seq<T>, b: seq<T>, p: T -> bool)
    ensures Filter(a + b, p) == Filter(a, p) + Filter(b, p)
  {
    if a != [] {
      var head := if p(a[0]) then [a[0]] else [];
      assert (a + b)[0] == a[0];
      assert (a + b)[1..] == a[1..] + b;
      assert Filter(a + b, p) == head + Filter(a[1..] + b, p);
      FilterConcat(a[1..], b, p);
      assert head + (Filter(a[1..], p) + Filter(b, p)) == (head + Filter(a[1..], p)) + Filter(b, p);
    } else {
      assert a + b == b;
    }
  }

  /** Each element occurs in the result as often as in s if it satisfies p, and not at all otherwise. */
  lemma {:induction false} FilterMultiplicity<T>(s: seq<T>, p: T -> bool, x: T)
    ensures multiset(Filter(s, p))[x] == if p(x) then multiset(s)[x] else 0
  {
    if s != [] {
      assert s == [s[0]] + s[1..];
      FilterMultiplicity(s[1..], p, x);
    }
  }

  /** When every element satisfies p, nothing is dropped. */
  lemma {:induction false} FilterAll<T>(s: seq<T>, p: T -> bool)
    requires forall x :: x in s ==> p(x)
    ensures Filter(s, p) == s
  {
    if s != [] {
      assert s[0] in s;
      assert forall x :: x in s[1..] ==> x in s;
      FilterAll(s[1..], p);
    }
  }

  /** Where `splice(start, ...)` begins on an array of length len: a negative
      start counts back from the end (but not before 0), a start past the
      end is the end. */
  function SpliceStart(len: nat, start: int): (r: nat)
    ensures r <= len
    ensures 0 <= start ==> r == Min(start, len)
    ensures start < 0 ==> r == Max(len + start, 0)
  {
    if start < 0 then (if len + start < 0 then 0 else len + start)
    else if start < len then start
    else len
  }

  /** How many elements `splice(start, deleteCount)` removes: a negative count
      removes nothing, and no more than what follows the start is removed. */
  function SpliceCount(len: nat, start: int, deleteCount: int): (r: nat)
    ensures SpliceStart(len, start) + r <= len
    ensures r == Min(Max(deleteCount, 0), len - SpliceStart(len, start))
  {
    var a := SpliceStart(len, start);
    if deleteCount < 0 then 0
    else if deleteCount < len - a then deleteCount
    else len - a
  }

  /** The two outcomes of `s.splice(start, deleteCount)`: the array it
      returns and what is left in s. */
  datatype Spliced<T> = Spliced(removed: seq<T>, rest: seq<T>)

  function Splice<T>(s: seq<T>, start: int, deleteCount: int): (r: Spliced<T>)
    ensures |r.removed| == SpliceCount(|s|, start, deleteCount)
    ensures |r.rest| == |s| - |r.removed|
    ensures var a := SpliceStart(|s|, start);
            s == r.rest[..a] + r.removed + r.rest[a..]
  {
    var a := SpliceStart(|s|, start);
    var c := SpliceCount(|s|, start, deleteCount);
    var r := Spliced(s[a..a + c], s[..a] + s[a + c..]);
    assert r.rest[..a] == s[..a] && r.rest[a..] == s[a + c..];
    assert s == s[..a] + s[a..a + c] + s[a + c..];
    r
  }

  /** `s[i] = x` with `-1 <= i < |s|`, the indices `findIndex` returns:
      an element is replaced, while -1 names a property that is not an
      element, so the elements stay as they are. */
  function AssignAt<T>(s: seq<T>, i: int, x: T): (r: seq<T>)
    requires -1 <= i < |s|
    ensures |r| == |s|
    ensures forall k :: 0 <= k < |s| && k != i ==> r[k] == s[k]
    ensures 0 <= i ==> r[i] == x
    ensures i < 0 ==> r == s
  {
    if i < 0 then s else s[i := x]
  }

  /** A splice of one element at index k in range removes exactly s[k]. */
  lemma SpliceOneAt<T>(s: seq<T>, k: int)
    requires 0 <= k < |s|
    ensures Splice(s, k, 1).removed == [s[k]]
    ensures Splice(s, k, 1).rest == s[..k] + s[k + 1..]
  {
  }

  /** `splice(-1, 1)` removes the last element, and does nothing to an empty array. */
  lemma SpliceMinusOne<T>(s: seq<T>)
    ensures s != [] ==> Splice(s, -1, 1).removed == [s[|s| - 1]] && Splice(s, -1, 1).rest == s[..|s| - 1]
    ensures s == [] ==> Splice(s, -1, 1) == Spliced([], [])
  {
  }

  /** A splice starting at a non-negative index takes the window of s that
      begins there, cut short at the end of s. */
  lemma SpliceWindow<T>(s: seq<T>, start: nat, count: nat)
    ensures var r := Splice(s, start, count).removed;
            && |r| == Min(count, Max(0, |s| - start))
            && (forall k :: 0 <= k < |r| ==> r[k] == s[start + k])
            && (start >= |s| ==> r == [])
  {
  }
}
