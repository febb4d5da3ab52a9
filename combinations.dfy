/** `itertools.combinations`: the k-element subsequences of a sequence, in the
    lexicographic order of their positions. */
module Combinations {
  import opened Util

  function Prepend(x: nat, cs: seq<seq<nat>>): (r: seq<seq<nat>>)
    ensures |r| == |cs|
    ensures forall i :: 0 <= i < |cs| ==> r[i] == [x] + cs[i]
  {
    if cs == [] then [] else [[x] + cs[0]] + Prepend(x, cs[1..])
  }

  /** `list(combinations(s, k))`: first every combination that takes `s[0]`, then every
      one that skips it; a single empty combination when `k == 0`, none when `k > |s|`. */
  function Combos(s: seq<nat>, k: nat): seq<seq<nat>>
    decreases |s|
  {
    if k == 0 then [[]]
    else if |s| < k then []
    else Prepend(s[0], Combos(s[1..], k - 1)) + Combos(s[1..], k)
  }

  /** Python's ordering of tuples. */
  predicate LexLess(a: seq<nat>, b: seq<nat>)
    decreases |a|
  {
    b != [] && (a == [] || a[0] < b[0] || (a[0] == b[0] && LexLess(a[1..], b[1..])))
  }

  /** `c` is a `k`-element subset of the elements of `s`, listed in increasing order. */
  predicate IsCombo(c: seq<nat>, s: seq<nat>, k: nat) {
    |c| == k && StrictlyIncreasing(c) && forall i :: 0 <= i < |c| ==> c[i] in s
  }

  /** Over a strictly increasing sequence, every combination has `k` elements of `s`
      in increasing order. */
  lemma {:induction false} CombosSound(s: seq<nat>, k: nat)
    requires StrictlyIncreasing(s)
    ensures forall c :: c in Combos(s, k) ==> IsCombo(c, s, k)
    decreases |s|
  {
    if k > 0 && |s| >= k {
      var t := s[1..];
      CombosSound(t, k - 1);
      CombosSound(t, k);
      var left := Combos(t, k - 1);
      forall j | 0 <= j < |left| ensures IsCombo([s[0]] + left[j], s, k) {
        var d := left[j];
        assert IsCombo(d, t, k - 1);
        forall i | 0 <= i < |d| ensures s[0] < d[i] {
          var m :| 0 <= m < |t| && t[m] == d[i];
          assert s[m + 1] == d[i];
        }
        StrictCons(s[0], d);
        var c := [s[0]] + d;
        forall i | 0 <= i < |c| ensures c[i] in s {
          if i > 0 {
            assert c[i] == d[i - 1];
            assert d[i - 1] in t;
          }
        }
      }
      forall c | c in Combos(t, k) ensures IsCombo(c, s, k) {
        assert IsCombo(c, t, k);
      }
    }
  }

  lemma ComboTail(s: seq<nat>, c: seq<nat>)
    requires StrictlyIncreasing(s) && IsCombo(c, s, |c|)
    requires c != [] && s != [] && c[0] == s[0]
    ensures IsCombo(c[1..], s[1..], |c| - 1)
  {
    var d, t := c[1..], s[1..];
    forall i | 0 <= i < |d| ensures d[i] in t {
      assert c[i + 1] == d[i] && c[0] < c[i + 1];
      var n :| 0 <= n < |s| && s[n] == d[i];
      assert n != 0;
      assert t[n - 1] == d[i];
    }
  }

  lemma ComboSkipsHead(s: seq<nat>, c: seq<nat>)
    requires StrictlyIncreasing(s) && IsCombo(c, s, |c|)
    requires c != [] && s != [] && c[0] != s[0]
    ensures IsCombo(c, s[1..], |c|)
  {
    var t := s[1..];
    forall i | 0 <= i < |c| ensures c[i] in t {
      var n :| 0 <= n < |s| && s[n] == c[i];
      assert n != 0 by {
        if i > 0 {
          assert c[0] < c[i];
          var m :| 0 <= m < |s| && s[m] == c[0];
          assert s[0] < s[m];
        }
      }
      assert t[n - 1] == c[i];
    }
  }

  /** ...and every such subsequence is enumerated. */
  lemma {:induction false} CombosComplete(s: seq<nat>, c: seq<nat>)
    requires StrictlyIncreasing(s)
    requires IsCombo(c, s, |c|)
    ensures c in Combos(s, |c|)
    decreases |s|
  {
    if c != [] {
      var k := |c|;
      assert c[0] in s;
      var t := s[1..];
      if c[0] == s[0] {
        var d := c[1..];
        assert d in Combos(t, k - 1) by {
          ComboTail(s, c);
          CombosComplete(t, d);
        }
        var j :| 0 <= j < |Combos(t, k - 1)| && Combos(t, k - 1)[j] == d;
        assert c == [s[0]] + d;
        assert Prepend(s[0], Combos(t, k - 1))[j] == c;
      } else {
        assert c in Combos(t, k) by {
          ComboSkipsHead(s, c);
          CombosComplete(t, c);
        }
      }
    }
  }

  lemma PrependLex(x: nat, a: seq<nat>, b: seq<nat>)
    requires LexLess(a, b)
    ensures LexLess([x] + a, [x] + b)
  {
    assert ([x] + a)[1..] == a && ([x] + b)[1..] == b;
  }

  /** Over a strictly increasing sequence the enumeration is strictly lexicographic:
      in order, and without repetitions. */
  lemma {:induction false} CombosLexOrdered(s: seq<nat>, k: nat)
    requires StrictlyIncreasing(s)
    ensures forall i, j :: 0 <= i < j < |Combos(s, k)| ==> LexLess(Combos(s, k)[i], Combos(s, k)[j])
    decreases |s|
  {
    if k > 0 && |s| >= k {
      var t := s[1..];
      var left, right := Combos(t, k - 1), Combos(t, k);
      CombosLexOrdered(t, k - 1);
      CombosLexOrdered(t, k);
      CombosSound(t, k);
      var all := Prepend(s[0], left) + right;
      forall i, j | 0 <= i < j < |all| ensures LexLess(all[i], all[j]) {
        if j < |left| {
          PrependLex(s[0], left[i], left[j]);
        } else if i < |left| {
          var b := right[j - |left|];
          assert b in right;
          assert IsCombo(b, t, k);
          var n :| 0 <= n < |t| && t[n] == b[0];
          assert s[n + 1] == b[0];
        } else {
          assert all[i] == right[i - |left|] && all[j] == right[j - |left|];
        }
      }
    }
  }

  /** Choosing every element gives exactly one combination: the whole sequence. */
  lemma {:induction false} CombosOfAll(s: seq<nat>)
    ensures Combos(s, |s|) == [s]
    decreases |s|
  {
    if s != [] {
      CombosOfAll(s[1..]);
      assert [s[0]] + s[1..] == s;
    }
  }
}
