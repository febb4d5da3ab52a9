/** Small sequence helpers shared by the other modules: an option type, sortedness,
    index tuples, Python's `range`, `list.index` and `sorted`. */
module Util {

  datatype Option<T> = None | Some(value: T)

  predicate Sorted(s: seq<nat>) {
    forall i, j :: 0 <= i < j < |s| ==> s[i] <= s[j]
  }

  predicate StrictlyIncreasing(s: seq<nat>) {
    forall i, j :: 0 <= i < j < |s| ==> s[i] < s[j]
  }

  lemma StrictSnoc(s: seq<nat>, a: nat)
    requires StrictlyIncreasing(s)
    requires forall x :: x in s ==> x < a
    ensures StrictlyIncreasing(s + [a])
  {
    forall i, j | 0 <= i < j < |s + [a]| ensures (s + [a])[i] < (s + [a])[j] {
      assert (s + [a])[i] == s[i] && s[i] in s;
    }
  }

  lemma StrictCons(a: nat, s: seq<nat>)
    requires StrictlyIncreasing(s)
    requires forall i :: 0 <= i < |s| ==> a < s[i]
    ensures StrictlyIncreasing([a] + s)
  {
    forall i, j | 0 <= i < j < |[a] + s| ensures ([a] + s)[i] < ([a] + s)[j] {
      assert ([a] + s)[j] == s[j - 1];
      if i > 0 {
        assert ([a] + s)[i] == s[i - 1];
      }
    }
  }

  /** Every index is below `n`. */
  predicate ValidIdxs(idxs: seq<nat>, n: nat) {
    forall i :: 0 <= i < |idxs| ==> idxs[i] < n
  }

  /** A non-empty increasing tuple of indices below `n`. */
  predicate IdxTuple(c: seq<nat>, n: nat) {
    |c| > 0 && StrictlyIncreasing(c) && ValidIdxs(c, n)
  }

  /** `list(range(n))` */
  function Range(n: nat): (r: seq<nat>)
    ensures |r| == n
    ensures forall i :: 0 <= i < n ==> r[i] == i
  {
    if n == 0 then [] else Range(n - 1) + [n - 1]
  }

  /** `s.index(x)`: the position of the first occurrence of `x`. */
  function IndexOf<T(==)>(s: seq<T>, x: T): (i: nat)
    requires x in s
    ensures i < |s| && s[i] == x
    ensures forall j :: 0 <= j < i ==> s[j] != x
  {
    if s[0] == x then 0 else 1 + IndexOf(s[1..], x)
  }

  /** `[s.index(v) for v in vs]` */
  function IndicesOf<T(==)>(s: seq<T>, vs: seq<T>): (r: seq<nat>)
    requires forall v :: v in vs ==> v in s
    ensures |r| == |vs|
    ensures forall i :: 0 <= i < |vs| ==> r[i] < |s| && s[r[i]] == vs[i]
  {
    seq(|vs|, i requires 0 <= i < |vs| => IndexOf(s, vs[i]))
  }

  lemma SortedCons(a: nat, s: seq<nat>)
    requires Sorted(s)
    requires forall y :: y in s ==> a <= y
    ensures Sorted([a] + s)
  {
    forall i, j | 0 <= i < j < |[a] + s| ensures ([a] + s)[i] <= ([a] + s)[j] {
      assert ([a] + s)[j] == s[j - 1] && s[j - 1] in s;
      if i > 0 {
        assert ([a] + s)[i] == s[i - 1];
      }
    }
  }

  function Insert(x: nat, s: seq<nat>): seq<nat>
    decreases |s|
  {
    if s == [] || x <= s[0] then [x] + s else [s[0]] + Insert(x, s[1..])
  }

  /** Inserting into a sorted sequence keeps it sorted and adds exactly `x`. */
  lemma {:induction false} InsertSorted(x: nat, s: seq<nat>)
    requires Sorted(s)
    ensures Sorted(Insert(x, s))
    ensures multiset(Insert(x, s)) == multiset(s) + multiset{x}
    decreases |s|
  {
    if s == [] || x <= s[0] {
      SortedCons(x, s);
    } else {
      var t := s[1..];
      assert s == [s[0]] + t;
      assert Sorted(t);
      InsertSorted(x, t);
      var rest := Insert(x, t);
      forall y | y in rest ensures s[0] <= y {
        assert y in multiset(rest);
        if y != x {
          assert y in multiset(t);
          var i :| 0 <= i < |t| && t[i] == y;
          assert s[i + 1] == y;
        }
      }
      SortedCons(s[0], rest);
    }
  }

  /** `sorted(s)` on a list of naturals. */
  function Sort(s: seq<nat>): (r: seq<nat>)
    ensures Sorted(r)
    ensures multiset(r) == multiset(s)
  {
    if s == [] then []
    else
      assert s == [s[0]] + s[1..];
      InsertSorted(s[0], Sort(s[1..]));
      Insert(s[0], Sort(s[1..]))
  }

  lemma SortHeadIsMin(s: seq<nat>)
    requires |s| > 0
    ensures Sort(s)[0] in s
    ensures forall x :: x in s ==> Sort(s)[0] <= x
  {
    var r := Sort(s);
    assert |multiset(r)| == |multiset(s)|;
    assert r[0] in multiset(r);
    forall x | x in s ensures r[0] <= x {
      assert x in multiset(r);
      var i :| 0 <= i < |r| && r[i] == x;
      if i > 0 {
        assert r[0] <= r[i];
      }
    }
  }

  /** `s.sort(); s[0]`: the smallest element. */
  method SortedHead(s: seq<nat>) returns (m: nat)
    requires |s| > 0
    ensures m in s
    ensures forall x :: x in s ==> m <= x
  {
    var sorted := Sort(s);
    SortHeadIsMin(s);
    m := sorted[0];
  }

  /** Extending a prefix of `s` by its next element. */
  lemma TakeNext<T>(s: seq<T>, i: nat)
    requires i < |s|
    ensures s[..i + 1] == s[..i] + [s[i]]
  {
  }

  /** The last element and the rest of a concatenation with a non-empty right part. */
  lemma ConcatInit<T>(a: seq<T>, b: seq<T>)
    requires |b| > 0
    ensures (a + b)[..|a + b| - 1] == a + b[..|b| - 1]
    ensures (a + b)[|a + b| - 1] == b[|b| - 1]
  {
  }

  lemma AppendAssoc<T>(a: seq<T>, b: seq<T>, c: seq<T>)
    ensures (a + b) + c == a + (b + c)
  {
  }
}
