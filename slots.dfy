/**
 * Sequences of slots. A ptr_vector keeps its elements in a std::vector of
 * owning handles and rewrites that vector in place; this module gives the
 * pure effect of each rewrite (splice a run in, cut a range out, repeat a
 * value) and the facts the container relies on, chiefly that the rewrites
 * keep "no two slots share an element".
 */
module Slots {

  /** No element occurs twice: the no-aliasing half of the ownership invariant. */
  ghost predicate Distinct<X>(s: seq<X>) {
    forall i, j :: 0 <= i < j < |s| ==> s[i] != s[j]
  }

  /** `s` with the run `xs` placed at index `k`: the prefix stays, the suffix moves right by |xs|. */
  function Spliced<X>(s: seq<X>, k: nat, xs: seq<X>): (r: seq<X>)
    requires k <= |s|
    ensures |r| == |s| + |xs|
  {
    s[..k] + xs + s[k..]
  }

  /** Where each slot of a splice comes from: the prefix, the new run, or the shifted suffix. */
  lemma SplicedAt<X>(s: seq<X>, k: nat, xs: seq<X>)
    requires k <= |s|
    ensures forall i :: 0 <= i < k ==> Spliced(s, k, xs)[i] == s[i]
    ensures forall i :: 0 <= i < |xs| ==> Spliced(s, k, xs)[k + i] == xs[i]
    ensures forall i :: k <= i < |s| ==> Spliced(s, k, xs)[i + |xs|] == s[i]
  {
  }

  /** `s` without the half-open index range [first, last): the later slots move left. */
  function Erased<X>(s: seq<X>, first: nat, last: nat): (r: seq<X>)
    requires first <= last <= |s|
    ensures |r| == |s| - (last - first)
  {
    s[..first] + s[last..]
  }

  /** Where each slot left after an erase comes from: the prefix, or the suffix shifted left. */
  lemma ErasedAt<X>(s: seq<X>, first: nat, last: nat)
    requires first <= last <= |s|
    ensures forall i :: 0 <= i < first ==> Erased(s, first, last)[i] == s[i]
    ensures forall i :: last <= i < |s| ==> Erased(s, first, last)[i - (last - first)] == s[i]
  {
  }

  /** `n` copies of `x`. */
  function Repeat<X>(x: X, n: nat): (r: seq<X>)
    ensures |r| == n
    ensures forall i :: 0 <= i < n ==> r[i] == x
  {
    seq(n, _ => x)
  }

  /** Splicing in a run of elements that are distinct and new to `s` keeps `s` distinct. */
  lemma SplicePreservesDistinct<X>(s: seq<X>, k: nat, xs: seq<X>)
    requires k <= |s| && Distinct(s) && Distinct(xs)
    requires forall x :: x in xs ==> x !in s
    ensures Distinct(Spliced(s, k, xs))
  {
    var r := Spliced(s, k, xs);
    forall i, j | 0 <= i < j < |r|
      ensures r[i] != r[j]
    {
      var n := |xs|;
      if i < k {
        if j < k {
        } else if j < k + n {
          assert r[j] == xs[j - k] && r[j] in xs;
        } else {
          assert r[j] == s[j - n];
        }
      } else if i < k + n {
        assert r[i] == xs[i - k] && r[i] in xs;
        if j < k + n {
          assert r[j] == xs[j - k];
        } else {
          assert r[j] == s[j - n] && r[j] in s;
        }
      } else {
        assert r[i] == s[i - n] && r[j] == s[j - n];
      }
    }
  }

  /** Cutting a range out of a distinct sequence leaves it distinct. */
  lemma ErasePreservesDistinct<X>(s: seq<X>, first: nat, last: nat)
    requires first <= last <= |s| && Distinct(s)
    ensures Distinct(Erased(s, first, last))
  {
    var r := Erased(s, first, last);
    var d := last - first;
    forall i, j | 0 <= i < j < |r|
      ensures r[i] != r[j]
    {
      var i' := if i < first then i else i + d;
      var j' := if j < first then j else j + d;
      assert r[i] == s[i'] && r[j] == s[j'] && i' < j';
    }
  }

  /** Overwriting one slot with an element not already present keeps the sequence distinct. */
  lemma ReplacePreservesDistinct<X>(s: seq<X>, k: nat, x: X)
    requires k < |s| && Distinct(s) && x !in s
    ensures Distinct(s[k := x])
  {
    var r := s[k := x];
    forall i, j | 0 <= i < j < |r|
      ensures r[i] != r[j]
    {
      if i == k {
        assert r[j] == s[j] && s[j] in s;
      } else if j == k {
        assert r[i] == s[i] && s[i] in s;
      }
    }
  }

  /** Erasing the run that was just spliced in gives back the original: erase undoes insert. */
  lemma {:induction false} EraseUndoesSplice<X>(s: seq<X>, k: nat, xs: seq<X>)
    requires k <= |s|
    ensures Erased(Spliced(s, k, xs), k, k + |xs|) == s
  {
    var r := Erased(Spliced(s, k, xs), k, k + |xs|);
    assert |r| == |s|;
    forall i | 0 <= i < |s|
      ensures r[i] == s[i]
    {
      if k <= i {
        assert r[i] == Spliced(s, k, xs)[i + |xs|];
      }
    }
  }

  /** Splicing `xs` and then `ys` at the same index is splicing `ys + xs` once. */
  lemma {:induction false} SpliceTwiceAtSameIndex<X>(s: seq<X>, k: nat, xs: seq<X>, ys: seq<X>)
    requires k <= |s|
    ensures Spliced(Spliced(s, k, xs), k, ys) == Spliced(s, k, ys + xs)
  {
    var a := Spliced(Spliced(s, k, xs), k, ys);
    var b := Spliced(s, k, ys + xs);
    assert |a| == |b|;
    forall i | 0 <= i < |a|
      ensures a[i] == b[i]
    {
      if i < k {
      } else if i < k + |ys| {
        assert a[i] == ys[i - k] && b[i] == (ys + xs)[i - k];
      } else if i < k + |ys| + |xs| {
        assert a[i] == Spliced(s, k, xs)[i - |ys|] == xs[i - |ys| - k];
        assert b[i] == (ys + xs)[i - k];
      } else {
        assert a[i] == Spliced(s, k, xs)[i - |ys|] == s[i - |ys| - |xs|];
      }
    }
  }

  /** One more copy in front of `n` copies is `n + 1` copies. */
  lemma {:induction false} RepeatCons<X>(x: X, n: nat)
    ensures [x] + Repeat(x, n) == Repeat(x, n + 1)
  {
    var a := [x] + Repeat(x, n);
    assert |a| == n + 1;
    forall i | 0 <= i < n + 1
      ensures a[i] == x
    {
      if i > 0 { assert a[i] == Repeat(x, n)[i - 1]; }
    }
  }
}
