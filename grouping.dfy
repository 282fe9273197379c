/** The two grouping helpers of `src/staves.rs`:
    `group_by_incremental_values`, which splits a column's pixel rows into
    runs of consecutive values, and `group_by_equal_value`, which stably
    groups `(pixel, staff)` pairs by ascending staff index. */
module Grouping {

  predicate StrictlyIncreasing(s: seq<nat>)
  {
    forall i, j :: 0 <= i < j < |s| ==> s[i] < s[j]
  }

  function Last(s: seq<nat>): nat
    requires |s| > 0
  {
    s[|s| - 1]
  }

  /** The concatenation of the groups, in order. */
  function Flatten(rs: seq<seq<nat>>): seq<nat>
    decreases |rs|
  {
    if rs == [] then [] else Flatten(rs[..|rs| - 1]) + rs[|rs| - 1]
  }

  // ---------------------------------------------------------------------
  // group_by_incremental_values
  // ---------------------------------------------------------------------

  /** The groups `group_by_incremental_values` has built after reading `v`:
      the first value opens a group; every later value joins the last group
      when it exceeds its predecessor by exactly 1 and opens a new group
      otherwise. The difference is taken on integers (see README). */
  function Runs(v: seq<nat>): (r: seq<seq<nat>>)
    ensures |r| > 0 <==> |v| > 0
    ensures |r| <= |v|
    decreases |v|
  {
    if |v| == 0 then []
    else if |v| == 1 then [[v[0]]]
    else
      var r := Runs(v[..|v| - 1]);
      var current, next := v[|v| - 2], v[|v| - 1];
      if next as int - current as int == 1 then r[..|r| - 1] + [r[|r| - 1] + [next]]
      else r + [[next]]
  }

  /** `group_by_incremental_values`: pushes the first value as a group, then
      walks the windows of two neighbours, extending the last group or
      opening a new one. */
  method GroupByIncrementalValues(v: seq<nat>) returns (res: seq<seq<nat>>)
    ensures res == Runs(v)
  {
    res := [];
    if |v| > 0 {
      res := res + [[v[0]]];
    }
    var i := 0;
    while i + 1 < |v|
      invariant |v| == 0 ==> res == []
      invariant |v| > 0 ==> i < |v| && res == Runs(v[..i + 1])
    {
      var current, next := v[i], v[i + 1];
      assert v[..i + 2][..i + 1] == v[..i + 1];
      if next as int - current as int == 1 {
        if |res| > 0 {
          res := res[..|res| - 1] + [res[|res| - 1] + [next]];
        }
      } else {
        res := res + [[next]];
      }
      i := i + 1;
    }
    assert |v| > 0 ==> v[..i + 1] == v;
  }

  lemma FlattenAppend(rs: seq<seq<nat>>, s: seq<nat>)
    ensures Flatten(rs + [s]) == Flatten(rs) + s
  {
    assert (rs + [s])[..|rs|] == rs;
  }

  /** Flattening the runs gives back exactly the input. */
  lemma {:induction false} RunsFlatten(v: seq<nat>)
    ensures Flatten(Runs(v)) == v
    decreases |v|
  {
    if |v| == 0 {
    } else if |v| == 1 {
      FlattenAppend([], [v[0]]);
    } else {
      var v' := v[..|v| - 1];
      var r := Runs(v');
      RunsFlatten(v');
      var next := v[|v| - 1];
      assert v == v' + [next];
      if next as int - v[|v| - 2] as int == 1 {
        var init, l := r[..|r| - 1], r[|r| - 1];
        assert r == init + [l];
        FlattenAppend(init, l);
        FlattenAppend(init, l + [next]);
        assert Flatten(Runs(v)) == Flatten(init) + l + [next];
      } else {
        FlattenAppend(r, [next]);
      }
    }
  }

  /** Reading one more value extends the runs by one step. */
  lemma RunsAppend(s: seq<nat>, x: nat)
    requires |s| > 0
    ensures Runs(s + [x]) ==
      var r := Runs(s);
      if x as int - Last(s) as int == 1 then r[..|r| - 1] + [r[|r| - 1] + [x]] else r + [[x]]
  {
    assert (s + [x])[..|s|] == s;
  }

  predicate NonEmptyGroups(rs: seq<seq<nat>>)
  {
    forall g :: 0 <= g < |rs| ==> |rs[g]| > 0
  }

  /** Inside each group every value is its predecessor plus 1. */
  predicate Consecutive(rs: seq<seq<nat>>)
  {
    forall g, t :: 0 <= g < |rs| && 0 < t < |rs[g]| ==> rs[g][t] == rs[g][t - 1] + 1
  }

  /** No group starts at the successor of the previous group's last value. */
  predicate Split(rs: seq<seq<nat>>)
    requires NonEmptyGroups(rs)
  {
    forall g :: 0 < g < |rs| ==> rs[g][0] != Last(rs[g - 1]) + 1
  }

  /** Every group starts more than 1 above the previous group's last value. */
  predicate Apart(rs: seq<seq<nat>>)
    requires NonEmptyGroups(rs)
  {
    forall g :: 0 < g < |rs| ==> rs[g][0] > Last(rs[g - 1]) + 1
  }

  lemma ExtendLastRun(r: seq<seq<nat>>, x: nat)
    requires |r| > 0 && NonEmptyGroups(r) && Consecutive(r) && Split(r)
    requires x == Last(r[|r| - 1]) + 1
    ensures var r' := r[..|r| - 1] + [r[|r| - 1] + [x]];
      NonEmptyGroups(r') && Consecutive(r') && Split(r') && Last(r'[|r'| - 1]) == x
      && (Apart(r) ==> Apart(r'))
  {
    var r' := r[..|r| - 1] + [r[|r| - 1] + [x]];
    assert forall g :: 0 <= g < |r| - 1 ==> r'[g] == r[g];
    assert forall g :: 0 <= g < |r| ==> r'[g][0] == r[g][0];
  }

  lemma OpenRun(r: seq<seq<nat>>, x: nat)
    requires NonEmptyGroups(r) && Consecutive(r) && Split(r)
    requires |r| > 0 ==> x != Last(r[|r| - 1]) + 1
    ensures var r' := r + [[x]];
      NonEmptyGroups(r') && Consecutive(r') && Split(r') && Last(r'[|r'| - 1]) == x
      && (Apart(r) && (|r| > 0 ==> x > Last(r[|r| - 1]) + 1) ==> Apart(r'))
  {
    var r' := r + [[x]];
    assert forall g :: 0 <= g < |r| ==> r'[g] == r[g];
  }

  /** The runs are non-empty and consecutive inside, consecutive runs do not
      meet (a run never starts at the successor of the previous run's last
      value), and the last run ends with the last input value. */
  lemma {:induction false} RunsShape(v: seq<nat>)
    ensures NonEmptyGroups(Runs(v)) && Consecutive(Runs(v)) && Split(Runs(v))
    ensures |v| > 0 ==> Last(Runs(v)[|Runs(v)| - 1]) == Last(v)
    decreases |v|
  {
    if |v| > 1 {
      RunsShape(v[..|v| - 1]);
      RunsShapeStep(v);
    } else if |v| == 1 {
      OpenRun([], v[0]);
    }
  }

  /** The shape `RunsShape` states, as one predicate. */
  ghost predicate RunsShaped(v: seq<nat>)
  {
    NonEmptyGroups(Runs(v)) && Consecutive(Runs(v)) && Split(Runs(v))
    && (|v| > 0 ==> Last(Runs(v)[|Runs(v)| - 1]) == Last(v))
  }

  lemma RunsShapeStep(v: seq<nat>)
    requires |v| > 1 && RunsShaped(v[..|v| - 1])
    ensures RunsShaped(v)
  {
    var v' := v[..|v| - 1];
    assert v == v' + [Last(v)];
    RunsAppend(v', Last(v));
    if Last(v) as int - Last(v') as int == 1 {
      ExtendLastRun(Runs(v'), Last(v));
    } else {
      OpenRun(Runs(v'), Last(v));
    }
  }

  /** For strictly ascending input the runs are separated by gaps larger
      than 1. */
  lemma {:induction false} RunsGaps(v: seq<nat>)
    requires StrictlyIncreasing(v)
    ensures NonEmptyGroups(Runs(v)) && Apart(Runs(v))
    decreases |v|
  {
    RunsShape(v);
    if |v| > 1 {
      var v' := v[..|v| - 1];
      assert StrictlyIncreasing(v');
      RunsGaps(v');
      RunsShape(v');
      RunsGapsStep(v);
    } else if |v| == 1 {
      OpenRun([], v[0]);
    }
  }

  lemma RunsGapsStep(v: seq<nat>)
    requires |v| > 1 && StrictlyIncreasing(v) && RunsShaped(v[..|v| - 1])
    requires NonEmptyGroups(Runs(v[..|v| - 1])) && Apart(Runs(v[..|v| - 1]))
    ensures NonEmptyGroups(Runs(v)) && Apart(Runs(v))
  {
    var v' := v[..|v| - 1];
    assert v == v' + [Last(v)];
    assert Last(v) > Last(v');
    RunsAppend(v', Last(v));
    if Last(v) as int - Last(v') as int == 1 {
      ExtendLastRun(Runs(v'), Last(v));
    } else {
      OpenRun(Runs(v'), Last(v));
    }
  }

  lemma RunsExamplePrefix()
    ensures Runs([0, 2, 3]) == [[0], [2, 3]]
  {
    RunsAppend([0], 2);
    assert [0] + [2] == [0, 2];
    assert Runs([0, 2]) == [[0], [2]];
    RunsAppend([0, 2], 3);
    assert [0, 2] + [3] == [0, 2, 3];
    var r2: seq<seq<nat>> := [[0], [2]];
    assert r2[..1] == [[0]] && r2[1] + [3] == [2, 3];
  }

  /** The source's test vectors, and the empty and one-element cases. */
  lemma RunsExamples(a: nat)
    ensures Runs([]) == []
    ensures Runs([a]) == [[a]]
    ensures Runs([0, 2, 3, 4, 6, 7]) == [[0], [2, 3, 4], [6, 7]]
  {
    RunsExamplePrefix();
    var r3: seq<seq<nat>> := [[0], [2, 3]];
    RunsAppend([0, 2, 3], 4);
    assert [0, 2, 3] + [4] == [0, 2, 3, 4];
    assert r3[..1] == [[0]] && r3[1] + [4] == [2, 3, 4];
    var r4: seq<seq<nat>> := [[0], [2, 3, 4]];
    assert Runs([0, 2, 3, 4]) == r4;
    RunsAppend([0, 2, 3, 4], 6);
    assert [0, 2, 3, 4] + [6] == [0, 2, 3, 4, 6];
    var r5: seq<seq<nat>> := r4 + [[6]];
    assert Runs([0, 2, 3, 4, 6]) == r5;
    RunsAppend([0, 2, 3, 4, 6], 7);
    assert [0, 2, 3, 4, 6] + [7] == [0, 2, 3, 4, 6, 7];
    assert r5[..2] == r4 && r5[2] + [7] == [6, 7];
  }

  /** A value of the flattened groups lies in some group, and in one group
      only when the flattening is strictly increasing. */
  lemma {:induction false} FlattenMembers(rs: seq<seq<nat>>, x: nat)
    ensures x in Flatten(rs) <==> exists j :: 0 <= j < |rs| && x in rs[j]
    ensures StrictlyIncreasing(Flatten(rs)) ==>
      forall j1, j2 :: 0 <= j1 < |rs| && 0 <= j2 < |rs| && x in rs[j1] && x in rs[j2] ==> j1 == j2
    decreases |rs|
  {
    if rs != [] {
      var init, l := rs[..|rs| - 1], rs[|rs| - 1];
      FlattenMembers(init, x);
      assert rs == init + [l];
      assert forall j :: 0 <= j < |init| ==> rs[j] == init[j];
      var f := Flatten(init);
      assert Flatten(rs) == f + l;
      if StrictlyIncreasing(Flatten(rs)) {
        ConcatStrictlyIncreasing(f, l);
        forall j | 0 <= j < |init| && x in init[j]
          ensures x !in l
        {
          assert x in f;
        }
      }
    }
  }

  lemma ConcatStrictlyIncreasing(f: seq<nat>, l: seq<nat>)
    requires StrictlyIncreasing(f + l)
    ensures StrictlyIncreasing(f) && StrictlyIncreasing(l)
    ensures forall a, b :: a in f && b in l ==> a < b
  {
    forall i, j | 0 <= i < j < |f| ensures f[i] < f[j] {
      assert (f + l)[i] == f[i] && (f + l)[j] == f[j];
    }
    forall i, j | 0 <= i < j < |l| ensures l[i] < l[j] {
      assert (f + l)[|f| + i] == l[i] && (f + l)[|f| + j] == l[j];
    }
    forall a, b | a in f && b in l ensures a < b {
      var i :| 0 <= i < |f| && f[i] == a;
      var j :| 0 <= j < |l| && l[j] == b;
      assert (f + l)[i] == a && (f + l)[|f| + j] == b;
    }
  }

  /** Sequences given as [..n] prefixes unfold one step at a time. */
  lemma ValuesPrefix(v: seq<(nat, nat)>, n: nat, k: nat)
    requires 0 < n <= |v|
    ensures Values(v[..n], k) == Values(v[..n - 1], k) + (if v[n - 1].1 == k then [v[n - 1].0] else [])
  {
    assert v[..n][..n - 1] == v[..n - 1];
  }

  // ---------------------------------------------------------------------
  // group_by_equal_value
  // ---------------------------------------------------------------------

  /** The values paired with key `k`, in input order. */
  function Values(v: seq<(nat, nat)>, k: nat): seq<nat>
    decreases |v|
  {
    if v == [] then []
    else Values(v[..|v| - 1], k) + (if v[|v| - 1].1 == k then [v[|v| - 1].0] else [])
  }

  predicate HasKey(v: seq<(nat, nat)>, k: nat)
  {
    exists j :: 0 <= j < |v| && v[j].1 == k
  }

  lemma ValuesAppend(v: seq<(nat, nat)>, e: (nat, nat), k: nat)
    ensures Values(v + [e], k) == Values(v, k) + (if e.1 == k then [e.0] else [])
  {
    assert (v + [e])[..|v|] == v;
  }

  /** `x` is among the values of key `k` exactly when the pair `(x, k)`
      occurs in the input; in particular the values are empty exactly when
      the key does not occur. */
  lemma {:induction false} ValuesMembers(v: seq<(nat, nat)>, k: nat)
    ensures forall x :: x in Values(v, k) <==> exists j :: 0 <= j < |v| && v[j] == (x, k)
    ensures Values(v, k) == [] <==> !HasKey(v, k)
    decreases |v|
  {
    if v != [] {
      var init, e := v[..|v| - 1], v[|v| - 1];
      ValuesMembers(init, k);
      assert v == init + [e];
      assert forall j :: 0 <= j < |init| ==> v[j] == init[j];
    }
  }

  predicate SortedByKey(v: seq<(nat, nat)>)
  {
    forall i, j :: 0 <= i < j < |v| ==> v[i].1 <= v[j].1
  }

  /** One step of a stable insertion sort by key: `e` goes after every
      element whose key is not larger than its own. */
  function InsertByKey(s: seq<(nat, nat)>, e: (nat, nat)): (r: seq<(nat, nat)>)
    ensures |r| == |s| + 1
    ensures forall i :: 0 <= i < |r| ==> r[i] == e || r[i] in s
    ensures multiset(r) == multiset(s) + multiset{e}
    decreases |s|
  {
    if s == [] then [e]
    else if s[|s| - 1].1 <= e.1 then s + [e]
    else
      assert s == s[..|s| - 1] + [s[|s| - 1]];
      InsertByKey(s[..|s| - 1], e) + [s[|s| - 1]]
  }

  /** The library's `sort_by` on the key: a stable sort, modelled as an
      insertion sort. */
  function SortByKey(v: seq<(nat, nat)>): (r: seq<(nat, nat)>)
    ensures |r| == |v|
    ensures multiset(r) == multiset(v)
    decreases |v|
  {
    if v == [] then []
    else
      assert v == v[..|v| - 1] + [v[|v| - 1]];
      InsertByKey(SortByKey(v[..|v| - 1]), v[|v| - 1])
  }

  lemma {:induction false} InsertByKeySorted(s: seq<(nat, nat)>, e: (nat, nat))
    requires SortedByKey(s)
    ensures SortedByKey(InsertByKey(s, e))
    ensures forall k :: Values(InsertByKey(s, e), k) == Values(s, k) + (if e.1 == k then [e.0] else [])
    decreases |s|
  {
    if s == [] || s[|s| - 1].1 <= e.1 {
      InsertAtEnd(s, e);
    } else {
      InsertByKeySorted(s[..|s| - 1], e);
      InsertBeforeLast(s, e);
    }
  }

  /** Inserting `e` into `s` keeps the order by key and adds `e.0` at the
      end of the values of key `e.1`. */
  ghost predicate InsertsStably(s: seq<(nat, nat)>, e: (nat, nat))
  {
    SortedByKey(InsertByKey(s, e))
    && forall k :: Values(InsertByKey(s, e), k) == Values(s, k) + (if e.1 == k then [e.0] else [])
  }

  lemma InsertAtEnd(s: seq<(nat, nat)>, e: (nat, nat))
    requires SortedByKey(s) && (s == [] || s[|s| - 1].1 <= e.1)
    ensures InsertsStably(s, e)
  {
    assert InsertByKey(s, e) == s + [e];
    ValuesAppendAll(s, e);
  }

  lemma InsertBeforeLast(s: seq<(nat, nat)>, e: (nat, nat))
    requires SortedByKey(s) && s != [] && e.1 < s[|s| - 1].1
    requires InsertsStably(s[..|s| - 1], e)
    ensures InsertsStably(s, e)
  {
    var init, l := s[..|s| - 1], s[|s| - 1];
    assert s == init + [l];
    assert InsertByKey(s, e) == InsertByKey(init, e) + [l];
    assert forall j :: 0 <= j < |init| ==> init[j].1 <= l.1 by {
      assert forall j :: 0 <= j < |init| ==> init[j] == s[j];
    }
    InsertedBelow(init, l, e);
    InsertedValues(init, l, e);
  }

  lemma InsertedBelow(init: seq<(nat, nat)>, l: (nat, nat), e: (nat, nat))
    requires SortedByKey(InsertByKey(init, e)) && e.1 < l.1
    requires forall j :: 0 <= j < |init| ==> init[j].1 <= l.1
    ensures SortedByKey(InsertByKey(init, e) + [l])
  {
    var r0 := InsertByKey(init, e);
    forall i | 0 <= i < |r0| ensures r0[i].1 <= l.1 {
      if r0[i] != e {
        var j :| 0 <= j < |init| && init[j] == r0[i];
      }
    }
    SortedAppend(r0, l);
  }

  lemma InsertedValues(init: seq<(nat, nat)>, l: (nat, nat), e: (nat, nat))
    requires e.1 != l.1
    requires forall k :: Values(InsertByKey(init, e), k) == Values(init, k) + (if e.1 == k then [e.0] else [])
    ensures forall k :: Values(InsertByKey(init, e) + [l], k) == Values(init + [l], k) + (if e.1 == k then [e.0] else [])
  {
    ValuesAppendAll(init, l);
    ValuesAppendAll(InsertByKey(init, e), l);
  }

  lemma SortedAppend(r: seq<(nat, nat)>, l: (nat, nat))
    requires SortedByKey(r) && forall i :: 0 <= i < |r| ==> r[i].1 <= l.1
    ensures SortedByKey(r + [l])
  {
    var rl := r + [l];
    forall i, j | 0 <= i < j < |rl| ensures rl[i].1 <= rl[j].1 {
      assert rl[i] == r[i];
    }
  }

  /** Appending `e` adds `e.0` to the values of key `e.1` and to no other. */
  ghost predicate ValuesExtend(w: seq<(nat, nat)>, e: (nat, nat))
  {
    forall k :: Values(w + [e], k) == Values(w, k) + (if e.1 == k then [e.0] else [])
  }

  lemma ValuesAppendAll(w: seq<(nat, nat)>, e: (nat, nat))
    ensures ValuesExtend(w, e)
  {
    forall k ensures Values(w + [e], k) == Values(w, k) + (if e.1 == k then [e.0] else []) {
      ValuesAppend(w, e, k);
    }
  }

  /** The sort orders by key and is stable: for every key the values keep
      their input order. */
  lemma {:induction false} SortByKeySortsStably(v: seq<(nat, nat)>)
    ensures SortedByKey(SortByKey(v))
    ensures forall k :: Values(SortByKey(v), k) == Values(v, k)
    decreases |v|
  {
    if v != [] {
      var init, e := v[..|v| - 1], v[|v| - 1];
      SortByKeySortsStably(init);
      InsertByKeySorted(SortByKey(init), e);
    }
  }

  /** What `group_by_equal_value` returns for `v`: keys strictly ascending,
      each key paired with exactly the input values carrying it, in input
      order (so never an empty list), and every key of the input present. */
  ghost predicate IsGroupingOf(v: seq<(nat, nat)>, res: seq<(nat, seq<nat>)>)
  {
    (forall g, h :: 0 <= g < h < |res| ==> res[g].0 < res[h].0)
    && (forall g :: 0 <= g < |res| ==> |res[g].1| > 0 && res[g].1 == Values(v, res[g].0))
    && (forall k :: HasKey(v, k) ==> exists g :: 0 <= g < |res| && res[g].0 == k)
  }

  /** `group_by_equal_value`: sorts the pairs by key, then groups the
      sorted pairs. */
  method GroupByEqualValue(vec: seq<(nat, nat)>) returns (res: seq<(nat, seq<nat>)>)
    ensures IsGroupingOf(vec, res)
  {
    var iter := SortByKey(vec);
    SortByKeySortsStably(vec);
    res := GroupSorted(iter);
    GroupingOfSorted(vec, iter, res);
  }

  /** The loop of `group_by_equal_value` over the sorted pairs: pushes the
      first pair as a group, then walks the windows of two neighbours,
      extending the last group when the keys agree and opening a new group
      otherwise. */
  method GroupSorted(iter: seq<(nat, nat)>) returns (res: seq<(nat, seq<nat>)>)
    requires SortedByKey(iter)
    ensures IsGroupingOf(iter, res)
  {
    res := [];
    if |iter| > 0 {
      res := res + [(iter[0].1, [iter[0].0])];
      GroupingFirst(iter);
    }
    var i := 0;
    while i + 1 < |iter|
      invariant |iter| == 0 ==> res == []
      invariant |iter| > 0 ==> GroupedUpTo(iter, i, res)
    {
      var current, next := iter[i], iter[i + 1];
      GroupingStep(iter, i, res);
      ghost var before := res;
      if current.1 == next.1 {
        if |res| > 0 {
          res := res[..|res| - 1] + [(res[|res| - 1].0, res[|res| - 1].1 + [next.0])];
        }
      } else {
        res := res + [(next.1, [next.0])];
      }
      assert res == Regrouped(before, current, next);
      i := i + 1;
    }
    GroupingDone(iter, i, res);
  }

  /** The first pair opens the first group. */
  lemma GroupingFirst(iter: seq<(nat, nat)>)
    requires |iter| > 0
    ensures GroupedUpTo(iter, 0, [(iter[0].1, [iter[0].0])])
  {
    assert [iter[0]] == iter[..1];
    GroupingStart(iter[0]);
  }

  /** When the windows are exhausted, the groups are the grouping of all
      pairs. */
  lemma GroupingDone(iter: seq<(nat, nat)>, i: nat, res: seq<(nat, seq<nat>)>)
    requires |iter| == 0 ==> res == []
    requires |iter| > 0 ==> GroupedUpTo(iter, i, res) && i + 1 >= |iter|
    ensures IsGroupingOf(iter, res)
  {
    if |iter| > 0 {
      assert iter[..i + 1] == iter;
    }
  }

  /** The loop invariant of `GroupSorted` after reading `iter[..i + 1]`:
      the groups so far are the grouping of the pairs read, and the last
      group carries the key of the last pair read. */
  ghost predicate GroupedUpTo(iter: seq<(nat, nat)>, i: nat, res: seq<(nat, seq<nat>)>)
  {
    i < |iter| && |res| > 0 && res[|res| - 1].0 == iter[i].1 && IsGroupingOf(iter[..i + 1], res)
  }

  /** The groups after one more window `(current, next)`: the last group
      grows when the keys agree, a new group opens otherwise. */
  ghost function Regrouped(res: seq<(nat, seq<nat>)>, current: (nat, nat), next: (nat, nat)): seq<(nat, seq<nat>)>
  {
    if current.1 == next.1 then
      if |res| > 0 then res[..|res| - 1] + [(res[|res| - 1].0, res[|res| - 1].1 + [next.0])] else res
    else res + [(next.1, [next.0])]
  }

  /** One window keeps the loop's invariant: the groups built so far are
      the grouping of the pairs read so far, and the last group carries the
      key of the last pair read. */
  lemma GroupingStep(iter: seq<(nat, nat)>, i: nat, res: seq<(nat, seq<nat>)>)
    requires SortedByKey(iter) && i + 1 < |iter|
    requires GroupedUpTo(iter, i, res)
    ensures GroupedUpTo(iter, i + 1, Regrouped(res, iter[i], iter[i + 1]))
  {
    var current, next := iter[i], iter[i + 1];
    assert iter[..i + 2] == iter[..i + 1] + [next];
    if current.1 == next.1 {
      GroupingExtendLast(iter[..i + 1], next, res);
    } else {
      assert forall j :: 0 <= j <= i ==> iter[j].1 <= current.1;
      GroupingOpen(iter[..i + 1], next, res);
    }
  }

  lemma GroupingStart(e: (nat, nat))
    ensures IsGroupingOf([e], [(e.1, [e.0])])
  {
    ValuesAppend([], e, e.1);
    assert [e] == [] + [e];
    forall k | HasKey([e], k) ensures exists g :: 0 <= g < 1 && [(e.1, [e.0])][g].0 == k {
      assert [(e.1, [e.0])][0].0 == k;
    }
  }

  lemma GroupingExtendLast(w: seq<(nat, nat)>, e: (nat, nat), res: seq<(nat, seq<nat>)>)
    requires IsGroupingOf(w, res) && |res| > 0 && res[|res| - 1].0 == e.1
    ensures IsGroupingOf(w + [e], res[..|res| - 1] + [(res[|res| - 1].0, res[|res| - 1].1 + [e.0])])
  {
    var res' := res[..|res| - 1] + [(res[|res| - 1].0, res[|res| - 1].1 + [e.0])];
    ValuesAppendAll(w, e);
    assert forall g :: 0 <= g < |res| ==> res'[g].0 == res[g].0;
    forall k | HasKey(w + [e], k) ensures exists g :: 0 <= g < |res'| && res'[g].0 == k {
      var j :| 0 <= j < |w + [e]| && (w + [e])[j].1 == k;
      if j < |w| {
        assert w[j].1 == k;
        assert HasKey(w, k);
      } else {
        assert res'[|res| - 1].0 == k;
      }
    }
  }

  lemma GroupingOpen(w: seq<(nat, nat)>, e: (nat, nat), res: seq<(nat, seq<nat>)>)
    requires IsGroupingOf(w, res)
    requires |res| > 0 ==> res[|res| - 1].0 < e.1
    requires forall j :: 0 <= j < |w| ==> w[j].1 < e.1
    ensures IsGroupingOf(w + [e], res + [(e.1, [e.0])])
  {
    var res' := res + [(e.1, [e.0])];
    ValuesMembers(w, e.1);
    ValuesAppendAll(w, e);
    assert forall g :: 0 <= g < |res| ==> res'[g] == res[g];
    OpenedKeysCovered(w, e, res);
  }

  lemma OpenedKeysCovered(w: seq<(nat, nat)>, e: (nat, nat), res: seq<(nat, seq<nat>)>)
    requires forall k :: HasKey(w, k) ==> exists g :: 0 <= g < |res| && res[g].0 == k
    ensures forall k :: HasKey(w + [e], k) ==>
      exists g :: 0 <= g < |res + [(e.1, [e.0])]| && (res + [(e.1, [e.0])])[g].0 == k
  {
    var res' := res + [(e.1, [e.0])];
    forall k | HasKey(w + [e], k) ensures exists g :: 0 <= g < |res'| && res'[g].0 == k {
      var j :| 0 <= j < |w + [e]| && (w + [e])[j].1 == k;
      if j < |w| {
        assert w[j].1 == k;
        assert HasKey(w, k);
        var g :| 0 <= g < |res| && res[g].0 == k;
        assert res'[g].0 == k;
      } else {
        assert res'[|res|].0 == k;
      }
    }
  }

  /** Grouping the sorted pairs is grouping the input, because the sort is
      stable. */
  lemma GroupingOfSorted(v: seq<(nat, nat)>, sorted: seq<(nat, nat)>, res: seq<(nat, seq<nat>)>)
    requires forall k :: Values(sorted, k) == Values(v, k)
    requires IsGroupingOf(sorted, res)
    ensures IsGroupingOf(v, res)
  {
    forall k | HasKey(v, k) ensures HasKey(sorted, k) {
      ValuesMembers(v, k);
      ValuesMembers(sorted, k);
    }
  }

  /** The keys of a grouping occur in the input. */
  lemma GroupKeysOccur(v: seq<(nat, nat)>, res: seq<(nat, seq<nat>)>)
    requires IsGroupingOf(v, res)
    ensures forall g :: 0 <= g < |res| ==> HasKey(v, res[g].0)
  {
    forall g | 0 <= g < |res| ensures HasKey(v, res[g].0) {
      ValuesMembers(v, res[g].0);
    }
  }

  function Keys(res: seq<(nat, seq<nat>)>): (ks: seq<nat>)
    ensures |ks| == |res| && forall g :: 0 <= g < |res| ==> ks[g] == res[g].0
  {
    seq(|res|, g requires 0 <= g < |res| => res[g].0)
  }

  lemma {:induction false} StrictlyIncreasingSameMembers(a: seq<nat>, b: seq<nat>)
    requires StrictlyIncreasing(a) && StrictlyIncreasing(b)
    requires forall x :: x in a <==> x in b
    ensures a == b
    decreases |a| + |b|
  {
    assert a != [] ==> a[0] in a;
    assert b != [] ==> b[0] in b;
    if a != [] && b != [] {
      assert a[0] in b && b[0] in a;
      assert a[0] == b[0];
      forall x ensures x in a[1..] <==> x in b[1..] {
        if x in a[1..] { assert x > a[0]; }
        if x in b[1..] { assert x > b[0]; }
        assert x in a <==> x == a[0] || x in a[1..];
        assert x in b <==> x == b[0] || x in b[1..];
      }
      StrictlyIncreasingSameMembers(a[1..], b[1..]);
      assert a == [a[0]] + a[1..] && b == [b[0]] + b[1..];
    }
  }

  /** The grouping of an input is unique: `IsGroupingOf` pins the result of
      `group_by_equal_value` down completely. */
  lemma GroupingUnique(v: seq<(nat, nat)>, r1: seq<(nat, seq<nat>)>, r2: seq<(nat, seq<nat>)>)
    requires IsGroupingOf(v, r1) && IsGroupingOf(v, r2)
    ensures r1 == r2
  {
    GroupKeysOccur(v, r1);
    GroupKeysOccur(v, r2);
    var k1, k2 := Keys(r1), Keys(r2);
    forall x ensures x in k1 <==> x in k2 {
      if x in k1 {
        var g :| 0 <= g < |r1| && k1[g] == x;
        assert HasKey(v, r1[g].0);
      }
      if x in k2 {
        var g :| 0 <= g < |r2| && k2[g] == x;
        assert HasKey(v, r2[g].0);
      }
    }
    StrictlyIncreasingSameMembers(k1, k2);
    assert forall g :: 0 <= g < |r1| ==> r1[g] == (k1[g], Values(v, k1[g])) == r2[g];
  }

  /** Empty input gives empty output. */
  lemma GroupingOfEmpty(res: seq<(nat, seq<nat>)>)
    requires IsGroupingOf([], res)
    ensures res == []
  {
    assert |res| > 0 ==> |Values([], res[0].0)| > 0;
  }

  /** The source's first test vector. */
  lemma GroupingExample1(res: seq<(nat, seq<nat>)>)
    requires IsGroupingOf([(4, 3), (3, 4), (2, 3), (1, 4)], res)
    ensures res == [(3, [4, 2]), (4, [3, 1])]
  {
    var v: seq<(nat, nat)> := [(4, 3), (3, 4), (2, 3), (1, 4)];
    var e: seq<(nat, seq<nat>)> := [(3, [4, 2]), (4, [3, 1])];
    ValuesPrefix(v, 1, 3); ValuesPrefix(v, 2, 3); ValuesPrefix(v, 3, 3); ValuesPrefix(v, 4, 3);
    ValuesPrefix(v, 1, 4); ValuesPrefix(v, 2, 4); ValuesPrefix(v, 3, 4); ValuesPrefix(v, 4, 4);
    assert v[..0] == [] && v[..4] == v;
    assert Values(v, 3) == [4, 2];
    assert Values(v, 4) == [3, 1];
    forall k | HasKey(v, k) ensures exists g :: 0 <= g < |e| && e[g].0 == k {
      assert k == 3 || k == 4;
      assert k == e[0].0 || k == e[1].0;
    }
    assert IsGroupingOf(v, e);
    GroupingUnique(v, res, e);
  }

  /** The source's second test vector. */
  lemma GroupingExample2(res: seq<(nat, seq<nat>)>)
    requires IsGroupingOf([(0, 4), (3, 4), (2, 4), (1, 3), (8, 4)], res)
    ensures res == [(3, [1]), (4, [0, 3, 2, 8])]
  {
    var v: seq<(nat, nat)> := [(0, 4), (3, 4), (2, 4), (1, 3), (8, 4)];
    var e: seq<(nat, seq<nat>)> := [(3, [1]), (4, [0, 3, 2, 8])];
    ValuesPrefix(v, 1, 3); ValuesPrefix(v, 2, 3); ValuesPrefix(v, 3, 3); ValuesPrefix(v, 4, 3); ValuesPrefix(v, 5, 3);
    ValuesPrefix(v, 1, 4); ValuesPrefix(v, 2, 4); ValuesPrefix(v, 3, 4); ValuesPrefix(v, 4, 4); ValuesPrefix(v, 5, 4);
    assert v[..0] == [] && v[..5] == v;
    assert Values(v, 3) == [1];
    assert Values(v, 4) == [0, 3, 2, 8];
    forall k | HasKey(v, k) ensures exists g :: 0 <= g < |e| && e[g].0 == k {
      assert k == 3 || k == 4;
      assert k == e[0].0 || k == e[1].0;
    }
    assert IsGroupingOf(v, e);
    GroupingUnique(v, res, e);
  }
}
