/** Sequence helpers shared by both engines: laying groups end to end,
    selecting the elements that carry a tag, and list removal by identity. */
module Seqs {

  /** No element occurs twice; for references, no object occurs twice. */
  ghost predicate Distinct<T>(xs: seq<T>) {
    forall i, j :: 0 <= i < j < |xs| ==> xs[i] != xs[j]
  }

  /** Dropping the element at j and appending two new, different elements
      keeps a sequence free of repetitions. */
  lemma {:induction false} DistinctReplace<T>(xs: seq<T>, j: nat, y: T, z: T)
    requires Distinct(xs) && j < |xs|
    requires y !in xs && z !in xs && y != z
    ensures Distinct(xs[..j] + xs[j + 1..] + [y, z])
  {
    var ys := xs[..j] + xs[j + 1..] + [y, z];
    forall a, b | 0 <= a < b < |ys|
      ensures ys[a] != ys[b]
    {
      var ka := if a < j then a else a + 1;
      var kb := if b < j then b else b + 1;
      if b < |xs| - 1 {
        assert ys[a] == xs[ka] && ys[b] == xs[kb];
      } else if a < |xs| - 1 {
        assert ys[a] == xs[ka];
      }
    }
  }

  /** The groups laid end to end, in order. */
  function Concat<T>(groups: seq<seq<T>>): seq<T> {
    if groups == [] then [] else Concat(groups[..|groups| - 1]) + groups[|groups| - 1]
  }

  lemma {:induction false} ConcatSnoc<T>(g: seq<seq<T>>, x: seq<T>)
    ensures Concat(g + [x]) == Concat(g) + x
  {
    assert (g + [x])[..|g|] == g;
  }

  lemma {:induction false} ConcatAppend<T>(g: seq<seq<T>>, h: seq<seq<T>>)
    ensures Concat(g + h) == Concat(g) + Concat(h)
    decreases |h|
  {
    if h == [] {
      assert g + h == g;
    } else {
      var h', x := h[..|h| - 1], h[|h| - 1];
      assert h == h' + [x];
      assert g + h == (g + h') + [x];
      ConcatAppend(g, h');
      ConcatSnoc(g + h', x);
      ConcatSnoc(h', x);
    }
  }

  lemma {:induction false} ConcatSingle<T>(s: seq<T>)
    ensures Concat([s]) == s
  {
    assert [s][..0] == [];
  }

  /** The concatenation around group c: the groups before it, then c, then
      the groups after it. */
  lemma {:induction false} ConcatAt<T>(g: seq<seq<T>>, c: nat)
    requires c < |g|
    ensures Concat(g) == Concat(g[..c]) + g[c] + Concat(g[c + 1..])
  {
    assert g == (g[..c] + [g[c]]) + g[c + 1..];
    ConcatAppend(g[..c] + [g[c]], g[c + 1..]);
    ConcatSnoc(g[..c], g[c]);
  }

  /** Appending x to group c of groups that hold xs gives groups that hold
      xs + [x]. */
  lemma {:induction false} ConcatAddAt<T>(g: seq<seq<T>>, c: nat, x: T, xs: seq<T>)
    requires c < |g|
    requires multiset(Concat(g)) == multiset(xs)
    ensures multiset(Concat(g[c := g[c] + [x]])) == multiset(xs + [x])
  {
    var g' := g[c := g[c] + [x]];
    assert g'[..c] == g[..c] && g'[c + 1..] == g[c + 1..];
    ConcatAt(g, c);
    ConcatAt(g', c);
    calc {
      multiset(Concat(g'));
      multiset(Concat(g[..c])) + multiset(g[c]) + multiset{x} + multiset(Concat(g[c + 1..]));
      multiset(Concat(g)) + multiset{x};
      multiset(xs + [x]);
    }
  }

  /** Removing the group at index j and appending g1 and g2 keeps the
      concatenation's multiset when g1 and g2 together hold what g[j] held. */
  lemma {:induction false} ConcatReplace<T>(g: seq<seq<T>>, j: nat, g1: seq<T>, g2: seq<T>)
    requires j < |g|
    requires multiset(g1) + multiset(g2) == multiset(g[j])
    ensures multiset(Concat(g[..j] + g[j + 1..] + [g1, g2])) == multiset(Concat(g))
  {
    var rest := g[..j] + g[j + 1..];
    ConcatAt(g, j);
    ConcatAppend(g[..j], g[j + 1..]);
    assert rest + [g1, g2] == (rest + [g1]) + [g2];
    ConcatSnoc(rest + [g1], g2);
    ConcatSnoc(rest, g1);
    calc {
      multiset(Concat(rest + [g1, g2]));
      multiset(Concat(rest) + g1 + g2);
      multiset(Concat(g[..j])) + multiset(Concat(g[j + 1..])) + multiset(g1) + multiset(g2);
      multiset(Concat(g[..j])) + multiset(g[j]) + multiset(Concat(g[j + 1..]));
      multiset(Concat(g));
    }
  }

  /** One group per tag value below k: each element of xs, in order, is
      appended to the group its tag names; an element whose tag is k or more
      joins no group. */
  function Groups<T>(xs: seq<T>, tags: seq<nat>, k: nat): (g: seq<seq<T>>)
    requires |tags| == |xs|
    ensures |g| == k
  {
    if xs == [] then seq(k, c => [])
    else
      var n := |xs| - 1;
      var g := Groups(xs[..n], tags[..n], k);
      if tags[n] < k then g[tags[n] := g[tags[n]] + [xs[n]]] else g
  }

  /** When every tag is below k, the k groups together hold every element of
      xs exactly as often as xs does: nothing is lost and nothing is duplicated. */
  lemma {:induction false} GroupsPartition<T>(xs: seq<T>, tags: seq<nat>, k: nat)
    requires |tags| == |xs|
    requires forall t :: 0 <= t < |tags| ==> tags[t] < k
    ensures multiset(Concat(Groups(xs, tags, k))) == multiset(xs)
    decreases |xs|
  {
    if xs == [] {
      EmptyGroups(Groups(xs, tags, k));
    } else {
      var n := |xs| - 1;
      GroupsPartition(xs[..n], tags[..n], k);
      ConcatAddAt(Groups(xs[..n], tags[..n], k), tags[n], xs[n], xs[..n]);
      assert xs[..n] + [xs[n]] == xs;
    }
  }

  /** Extending the prefix xs[..t] by xs[t], tagged c, adds xs[t] to group c. */
  lemma GroupsPrefixStep<T>(xs: seq<T>, tags: seq<nat>, t: nat, c: nat, k: nat)
    requires |tags| == t < |xs| && c < k
    ensures Groups(xs[..t + 1], tags + [c], k)
      == Groups(xs[..t], tags, k)[c := Groups(xs[..t], tags, k)[c] + [xs[t]]]
  {
    assert xs[..t + 1][..t] == xs[..t] && (tags + [c])[..t] == tags;
  }

  /** Grouping two parallel sequences by the same tags gives groups of the
      same sizes. */
  lemma {:induction false} GroupsSameShape<T, U>(xs: seq<T>, ys: seq<U>, tags: seq<nat>, k: nat)
    requires |xs| == |ys| == |tags|
    ensures forall c :: 0 <= c < k ==> |Groups(xs, tags, k)[c]| == |Groups(ys, tags, k)[c]|
    decreases |xs|
  {
    if xs != [] {
      var m := |xs| - 1;
      GroupsSameShape(xs[..m], ys[..m], tags[..m], k);
    }
  }

  lemma {:induction false} EmptyGroups<T>(g: seq<seq<T>>)
    requires forall c :: 0 <= c < |g| ==> g[c] == []
    ensures Concat(g) == []
    decreases |g|
  {
    if g != [] {
      EmptyGroups(g[..|g| - 1]);
    }
  }

  /** Every element of the group for tag c is an element of xs tagged c. */
  lemma {:induction false} GroupsTagged<T>(xs: seq<T>, tags: seq<nat>, k: nat, c: nat, x: T)
    requires |tags| == |xs| && c < k
    requires x in Groups(xs, tags, k)[c]
    ensures exists t :: 0 <= t < |xs| && xs[t] == x && tags[t] == c
    decreases |xs|
  {
    var n := |xs| - 1;
    var g := Groups(xs[..n], tags[..n], k);
    if x in g[c] {
      GroupsTagged(xs[..n], tags[..n], k, c, x);
      var t :| 0 <= t < n && xs[..n][t] == x && tags[..n][t] == c;
      assert xs[t] == x && tags[t] == c;
    } else {
      assert xs[n] == x && tags[n] == c;
    }
  }

  /** A permutation of a sequence without repeats has no repeats. */
  lemma DistinctPermutation<T>(xs: seq<T>, ys: seq<T>)
    requires multiset(xs) == multiset(ys) && Distinct(ys)
    ensures Distinct(xs)
  {
    AtMostOnce(ys);
    forall i, j | 0 <= i < j < |xs| ensures xs[i] != xs[j] {
      assert xs == xs[..j] + [xs[j]] + xs[j + 1..];
      assert xs[..j][i] == xs[i];
      assert multiset(xs)[xs[j]] >= multiset(xs[..j])[xs[j]] + 1;
    }
  }

  /** In a sequence without repeats every element occurs at most once. */
  lemma {:induction false} AtMostOnce<T>(ys: seq<T>)
    requires Distinct(ys)
    ensures forall x :: multiset(ys)[x] <= 1
    decreases |ys|
  {
    if ys != [] {
      var m := |ys| - 1;
      var pre := ys[..m];
      assert Distinct(pre);
      AtMostOnce(pre);
      assert ys == pre + [ys[m]];
      assert ys[m] !in pre;
    }
  }

  /** A running maximum: start, raised to every strictly larger value met
      in order, as a scan with `if (x > m) m = x` computes it. */
  function RunMax(start: real, xs: seq<real>): real {
    if xs == [] then start
    else
      var m := RunMax(start, xs[..|xs| - 1]);
      if xs[|xs| - 1] > m then xs[|xs| - 1] else m
  }

  lemma RunMaxSnoc(start: real, xs: seq<real>, x: real)
    ensures RunMax(start, xs + [x]) == if x > RunMax(start, xs) then x else RunMax(start, xs)
  {
    assert (xs + [x])[..|xs|] == xs;
  }

  /** The running maximum is the largest of start and the values: at least
      each of them, and equal to start or to one of the values. */
  lemma {:induction false} RunMaxIsMaximum(start: real, xs: seq<real>)
    ensures RunMax(start, xs) >= start
    ensures forall i :: 0 <= i < |xs| ==> xs[i] <= RunMax(start, xs)
    ensures RunMax(start, xs) == start || exists i :: 0 <= i < |xs| && RunMax(start, xs) == xs[i]
    decreases |xs|
  {
    if xs != [] {
      var n := |xs| - 1;
      var pre := xs[..n];
      RunMaxIsMaximum(start, pre);
      if RunMax(start, pre) != start {
        var k :| 0 <= k < n && RunMax(start, pre) == pre[k];
        assert RunMax(start, xs) == if xs[n] > RunMax(start, pre) then xs[n] else xs[k];
      }
    }
  }

  /** ArrayList.remove(Object) when equality is identity: the first
      occurrence of x is dropped, everything else keeps its order. */
  function RemoveFirst<T(==)>(xs: seq<T>, x: T): seq<T> {
    if xs == [] then []
    else if xs[0] == x then xs[1..]
    else [xs[0]] + RemoveFirst(xs[1..], x)
  }

  /** Removing the element at j by identity removes index j exactly when no
      earlier element is the same object. */
  lemma {:induction false} RemoveFirstAt<T>(xs: seq<T>, j: nat)
    requires j < |xs|
    requires forall i :: 0 <= i < j ==> xs[i] != xs[j]
    ensures RemoveFirst(xs, xs[j]) == xs[..j] + xs[j + 1..]
  {
    if j > 0 {
      assert xs[1..][j - 1] == xs[j];
      RemoveFirstAt(xs[1..], j - 1);
      assert xs[1..][..j - 1] == xs[1..j];
      assert xs[1..][j..] == xs[j + 1..];
      assert [xs[0]] + xs[1..j] == xs[..j];
    }
  }
}
