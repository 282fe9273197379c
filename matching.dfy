/** `match_position` of `src/staves.rs`: the choice of the staff a pixel of
    the current column belongs to. The predictions within tolerance of the
    pixel centre are the candidates; they are sorted by the column gap since
    the staff was last seen, then by the signed slope, with a stable sort,
    and the first one wins. */
module Matching {
  import opened Wrappers

  /** Where a staff expects its line in a column: the column it was last
      seen in, the predicted row and the predicted slope. */
  datatype Prediction = Prediction(fromY: real, x: real, bias: real)

  /** The largest distance between pixel centre and prediction that
      matches. */
  const Tolerance: real := 1.2

  function Abs(a: real): (r: real)
    ensures r >= 0.0 && (r == a || r == -a)
  {
    if a < 0.0 then -a else a
  }

  /** The pixel in (1-based) row `x` is within tolerance of `pred`; the
      distance is measured from the pixel centre `x + 0.5`. */
  predicate Gated(pred: Prediction, x: nat)
  {
    Abs(x as real + 0.5 - pred.x) <= Tolerance
  }

  /** The number of columns since the staff was last seen. */
  function Gap(pred: Prediction, y: nat): real
  {
    y as real - pred.fromY
  }

  /** The sort order: by gap, then by signed slope. */
  predicate LexLe(gap1: real, bias1: real, gap2: real, bias2: real)
  {
    gap1 < gap2 || (gap1 == gap2 && bias1 <= bias2)
  }

  /** `pred` sorts no later than `other` for column `y`. */
  predicate Precedes(pred: Prediction, other: Prediction, y: nat)
  {
    LexLe(Gap(pred, y), pred.bias, Gap(other, y), other.bias)
  }

  /** The `(id, gap, bias)` triples collected before sorting. */
  datatype Candidate = Candidate(id: nat, gap: real, bias: real)

  predicate KeyLe(a: Candidate, b: Candidate)
  {
    LexLe(a.gap, a.bias, b.gap, b.bias)
  }

  /** The filter-and-map step: one candidate per gated prediction, in
      prediction order. */
  function Candidates(preds: seq<Prediction>, x: nat, y: nat): (c: seq<Candidate>)
    ensures forall k :: 0 <= k < |c| ==>
      c[k].id < |preds| && Gated(preds[c[k].id], x)
      && c[k].gap == Gap(preds[c[k].id], y) && c[k].bias == preds[c[k].id].bias
    ensures forall k, l :: 0 <= k < l < |c| ==> c[k].id < c[l].id
    decreases |preds|
  {
    if preds == [] then []
    else
      var j := |preds| - 1;
      var c := Candidates(preds[..j], x, y);
      assert forall k :: 0 <= k < |c| ==> preds[..j][c[k].id] == preds[c[k].id];
      assert forall i :: 0 <= i < j ==> preds[..j][i] == preds[i];
      var cand := Candidate(j, Gap(preds[j], y), preds[j].bias);
      if Gated(preds[j], x) then c + [cand] else c
  }

  /** Every gated prediction is among the candidates. */
  lemma {:induction false} CandidatesComplete(preds: seq<Prediction>, x: nat, y: nat, j: nat)
    requires j < |preds| && Gated(preds[j], x)
    ensures exists k :: 0 <= k < |Candidates(preds, x, y)| && Candidates(preds, x, y)[k].id == j
    decreases |preds|
  {
    var n := |preds| - 1;
    CandidatesGrow(preds, x, y);
    if j < n {
      assert preds[..n][j] == preds[j];
      CandidatesComplete(preds[..n], x, y, j);
      var c := Candidates(preds[..n], x, y);
      var k :| 0 <= k < |c| && c[k].id == j;
      assert Candidates(preds, x, y)[k] == c[k];
    }
  }

  /** The candidates of all predictions extend those of all but the last,
      by the last one when it is gated. */
  lemma CandidatesGrow(preds: seq<Prediction>, x: nat, y: nat)
    requires |preds| > 0
    ensures var c, c' := Candidates(preds[..|preds| - 1], x, y), Candidates(preds, x, y);
      |c| <= |c'| && (forall k :: 0 <= k < |c| ==> c'[k] == c[k])
      && (Gated(preds[|preds| - 1], x) ==> |c'| > 0 && c'[|c'| - 1].id == |preds| - 1)
  {
  }

  lemma CandidatesCompleteAll(preds: seq<Prediction>, x: nat, y: nat)
    ensures var c := Candidates(preds, x, y);
      forall j :: 0 <= j < |preds| && Gated(preds[j], x) ==> exists k :: 0 <= k < |c| && c[k].id == j
  {
    var c := Candidates(preds, x, y);
    forall j | 0 <= j < |preds| && Gated(preds[j], x)
      ensures exists k :: 0 <= k < |c| && c[k].id == j
    {
      CandidatesComplete(preds, x, y, j);
    }
  }

  predicate Sorted(s: seq<Candidate>)
  {
    forall i, j :: 0 <= i < j < |s| ==> KeyLe(s[i], s[j])
  }

  /** One step of a stable insertion sort: `e` goes after every element that
      does not sort after it. */
  function Insert(s: seq<Candidate>, e: Candidate): (r: seq<Candidate>)
    ensures |r| == |s| + 1
    ensures forall i :: 0 <= i < |r| ==> r[i] == e || r[i] in s
    ensures multiset(r) == multiset(s) + multiset{e}
    decreases |s|
  {
    if s == [] then [e]
    else if KeyLe(s[|s| - 1], e) then s + [e]
    else
      assert s == s[..|s| - 1] + [s[|s| - 1]];
      Insert(s[..|s| - 1], e) + [s[|s| - 1]]
  }

  /** The library's stable `sort_by`, modelled as an insertion sort. */
  function Sort(c: seq<Candidate>): (r: seq<Candidate>)
    ensures |r| == |c|
    ensures forall i :: 0 <= i < |r| ==> r[i] in c
    ensures multiset(r) == multiset(c)
    decreases |c|
  {
    if c == [] then []
    else
      var init := c[..|c| - 1];
      assert c == init + [c[|c| - 1]];
      var r := Insert(Sort(init), c[|c| - 1]);
      assert forall i :: 0 <= i < |r| ==> r[i] == c[|c| - 1] || r[i] in init;
      r
  }

  lemma {:induction false} InsertSorted(s: seq<Candidate>, e: Candidate)
    requires Sorted(s)
    ensures Sorted(Insert(s, e))
    decreases |s|
  {
    if s != [] && !KeyLe(s[|s| - 1], e) {
      var init, l := s[..|s| - 1], s[|s| - 1];
      InsertSorted(init, e);
      var r0 := Insert(init, e);
      forall i | 0 <= i < |r0| ensures KeyLe(r0[i], l) {
        if r0[i] != e {
          var j :| 0 <= j < |init| && init[j] == r0[i];
        }
      }
    }
  }

  lemma {:induction false} SortSorted(c: seq<Candidate>)
    ensures Sorted(Sort(c))
    decreases |c|
  {
    if c != [] {
      SortSorted(c[..|c| - 1]);
      InsertSorted(Sort(c[..|c| - 1]), c[|c| - 1]);
    }
  }

  /** Inserting into a sorted list puts `e` first exactly when it sorts
      strictly before the old first element. */
  lemma {:induction false} InsertHead(s: seq<Candidate>, e: Candidate)
    requires Sorted(s)
    ensures Insert(s, e)[0] == if s == [] || !KeyLe(s[0], e) then e else s[0]
    decreases |s|
  {
    if s != [] && !KeyLe(s[|s| - 1], e) {
      var init := s[..|s| - 1];
      if init != [] {
        InsertHead(init, e);
        assert init[0] == s[0];
      }
    }
  }

  /** Position `k` holds a least candidate, and every earlier candidate
      sorts strictly after it. */
  predicate EarliestLeast(c: seq<Candidate>, k: int)
  {
    0 <= k < |c|
    && (forall j :: 0 <= j < |c| ==> KeyLe(c[k], c[j]))
    && (forall j :: 0 <= j < k ==> !KeyLe(c[j], c[k]))
  }

  /** Appending a candidate that does not sort before the earliest least
      one keeps it. */
  lemma LeastStays(c: seq<Candidate>, k: nat)
    requires |c| > 0 && EarliestLeast(c[..|c| - 1], k) && KeyLe(c[k], c[|c| - 1])
    ensures EarliestLeast(c, k)
  {
    assert forall j :: 0 <= j < |c| - 1 ==> c[..|c| - 1][j] == c[j];
  }

  /** Appending a candidate that sorts strictly before the earliest least
      one makes it the new earliest least. */
  lemma LeastReplaced(c: seq<Candidate>, k: nat)
    requires |c| > 0 && EarliestLeast(c[..|c| - 1], k) && !KeyLe(c[k], c[|c| - 1])
    ensures EarliestLeast(c, |c| - 1)
  {
    var init := c[..|c| - 1];
    assert forall j :: 0 <= j < |init| ==> init[j] == c[j];
    forall j | 0 <= j < |init| ensures KeyLe(c[|c| - 1], c[j]) && !KeyLe(c[j], c[|c| - 1]) {
      assert KeyLe(init[k], init[j]);
    }
  }

  /** The first element of the stable sort is the earliest least
      candidate. */
  lemma {:induction false} SortHead(c: seq<Candidate>)
    requires |c| > 0
    ensures exists k :: EarliestLeast(c, k) && Sort(c)[0] == c[k]
    decreases |c|
  {
    var init, e := c[..|c| - 1], c[|c| - 1];
    if init == [] {
      assert EarliestLeast(c, 0);
    } else {
      SortHead(init);
      var k0 :| EarliestLeast(init, k0) && Sort(init)[0] == init[k0];
      assert init[k0] == c[k0];
      SortSorted(init);
      InsertHead(Sort(init), e);
      if !KeyLe(c[k0], e) {
        LeastReplaced(c, k0);
        assert Sort(c)[0] == c[|c| - 1];
      } else {
        LeastStays(c, k0);
        assert Sort(c)[0] == c[k0];
      }
    }
  }

  /** The winner read off the sorted candidates is the earliest gated
      prediction that sorts first. */
  lemma HeadIsEarliestLeast(preds: seq<Prediction>, x: nat, y: nat)
    requires |Sort(Candidates(preds, x, y))| > 0
    ensures var w := Sort(Candidates(preds, x, y))[0].id;
      w < |preds| && Gated(preds[w], x)
      && (forall j :: 0 <= j < |preds| && Gated(preds[j], x) ==> Precedes(preds[w], preds[j], y))
      && (forall j :: 0 <= j < w && Gated(preds[j], x) ==> !Precedes(preds[j], preds[w], y))
  {
    var c := Candidates(preds, x, y);
    SortHead(c);
    var k :| EarliestLeast(c, k) && Sort(c)[0] == c[k];
    LeastPrecedesAll(preds, x, y, k);
    NoEarlierTie(preds, x, y, k);
  }

  /** The candidate at a least position precedes every gated prediction. */
  lemma LeastPrecedesAll(preds: seq<Prediction>, x: nat, y: nat, k: nat)
    requires EarliestLeast(Candidates(preds, x, y), k)
    ensures var w := Candidates(preds, x, y)[k].id;
      forall j :: 0 <= j < |preds| && Gated(preds[j], x) ==> Precedes(preds[w], preds[j], y)
  {
    var c := Candidates(preds, x, y);
    var w := c[k].id;
    forall j | 0 <= j < |preds| && Gated(preds[j], x) ensures Precedes(preds[w], preds[j], y) {
      CandidatesComplete(preds, x, y, j);
      var kk :| 0 <= kk < |c| && c[kk].id == j;
      assert KeyLe(c[k], c[kk]);
    }
  }

  /** No gated prediction before the one at the earliest least position
      sorts no later than it. */
  lemma NoEarlierTie(preds: seq<Prediction>, x: nat, y: nat, k: nat)
    requires EarliestLeast(Candidates(preds, x, y), k)
    ensures var w := Candidates(preds, x, y)[k].id;
      forall j :: 0 <= j < w && Gated(preds[j], x) ==> !Precedes(preds[j], preds[w], y)
  {
    var c := Candidates(preds, x, y);
    var w := c[k].id;
    forall j | 0 <= j < w && Gated(preds[j], x) ensures !Precedes(preds[j], preds[w], y) {
      CandidatesComplete(preds, x, y, j);
      var kk :| 0 <= kk < |c| && c[kk].id == j;
      assert kk < k;
      assert !KeyLe(c[kk], c[k]);
    }
  }

  /** `match_position`: the index of the first prediction after the stable
      sort of the gated candidates, or `None` when no prediction is within
      tolerance. The result is `None` exactly when nothing is gated, and
      otherwise the earliest gated prediction with the smallest gap and,
      among those, the smallest signed slope. How close `pred.x` is to the
      pixel plays no part beyond the gate. */
  function MatchPosition(preds: seq<Prediction>, x: nat, y: nat): (r: Option<nat>)
    ensures r.None? <==> forall j :: 0 <= j < |preds| ==> !Gated(preds[j], x)
    ensures r.Some? ==> r.value < |preds| && Gated(preds[r.value], x)
    ensures r.Some? ==> forall j :: 0 <= j < |preds| && Gated(preds[j], x) ==> Precedes(preds[r.value], preds[j], y)
    ensures r.Some? ==> forall j :: 0 <= j < r.value && Gated(preds[j], x) ==> !Precedes(preds[j], preds[r.value], y)
  {
    var sorted := Sort(Candidates(preds, x, y));
    if sorted == [] then
      CandidatesCompleteAll(preds, x, y);
      None
    else
      HeadIsEarliestLeast(preds, x, y);
      Some(sorted[0].id)
  }

  /** The four properties above determine the match: two answers that both
      satisfy them are equal. */
  lemma MatchDetermined(preds: seq<Prediction>, x: nat, y: nat, a: nat, b: nat)
    requires a < |preds| && Gated(preds[a], x) && b < |preds| && Gated(preds[b], x)
    requires forall j :: 0 <= j < |preds| && Gated(preds[j], x) ==> Precedes(preds[a], preds[j], y) && Precedes(preds[b], preds[j], y)
    requires forall j :: 0 <= j < a && Gated(preds[j], x) ==> !Precedes(preds[j], preds[a], y)
    requires forall j :: 0 <= j < b && Gated(preds[j], x) ==> !Precedes(preds[j], preds[b], y)
    ensures a == b
  {
  }

  /** The four properties characterise the match: a prediction that meets
      them is the one `match_position` returns. */
  lemma MatchIs(preds: seq<Prediction>, x: nat, y: nat, w: nat)
    requires w < |preds| && Gated(preds[w], x)
    requires forall j :: 0 <= j < |preds| && Gated(preds[j], x) ==> Precedes(preds[w], preds[j], y)
    requires forall j :: 0 <= j < w && Gated(preds[j], x) ==> !Precedes(preds[j], preds[w], y)
    ensures MatchPosition(preds, x, y) == Some(w)
  {
    var r := MatchPosition(preds, x, y);
    assert r.Some?;
    MatchDetermined(preds, x, y, r.value, w);
  }

  /** The sort order ignores the predicted rows. */
  lemma PrecedesIgnoresRows(p1: seq<Prediction>, p2: seq<Prediction>, y: nat)
    requires |p1| == |p2|
    requires forall j :: 0 <= j < |p1| ==> p1[j].fromY == p2[j].fromY && p1[j].bias == p2[j].bias
    ensures forall a, j :: 0 <= a < |p1| && 0 <= j < |p1| ==> (Precedes(p1[a], p1[j], y) <==> Precedes(p2[a], p2[j], y))
  {
  }

  /** Moving the predicted rows changes nothing as long as the same
      predictions stay within tolerance: closeness is not a criterion. */
  lemma MatchIgnoresCloseness(p1: seq<Prediction>, p2: seq<Prediction>, x: nat, y: nat)
    requires |p1| == |p2|
    requires forall j :: 0 <= j < |p1| ==> p1[j].fromY == p2[j].fromY && p1[j].bias == p2[j].bias
    requires forall j :: 0 <= j < |p1| ==> (Gated(p1[j], x) <==> Gated(p2[j], x))
    ensures MatchPosition(p1, x, y) == MatchPosition(p2, x, y)
  {
    var r1, r2 := MatchPosition(p1, x, y), MatchPosition(p2, x, y);
    PrecedesIgnoresRows(p1, p2, y);
    if r1.Some? && r2.Some? {
      MatchDetermined(p1, x, y, r1.value, r2.value);
    }
  }

  /** The pixel centre is used: a prediction at 5.0 matches row 4 (centre
      4.5) and rejects row 6 (centre 6.5). */
  lemma PixelCentreExample()
    ensures MatchPosition([Prediction(1.0, 5.0, 0.0)], 4, 2) == Some(0)
    ensures MatchPosition([Prediction(1.0, 5.0, 0.0)], 6, 2) == None
  {
    assert Gated(Prediction(1.0, 5.0, 0.0), 4);
    assert !Gated(Prediction(1.0, 5.0, 0.0), 6);
  }

  /** A staff seen in the previous column wins over one seen longer ago. */
  lemma ContinuityExample()
    ensures MatchPosition([Prediction(1.0, 1.0, 1.0), Prediction(3.0, 2.0, 0.0)], 1, 4) == Some(1)
  {
    var p := [Prediction(1.0, 1.0, 1.0), Prediction(3.0, 2.0, 0.0)];
    assert Gated(p[1], 1) && Precedes(p[1], p[0], 4) && Precedes(p[1], p[1], 4);
    assert !Precedes(p[0], p[1], 4);
    MatchIs(p, 1, 4, 1);
  }

  /** A nearer staff wins even with a larger slope. */
  lemma DistantStaffExample()
    ensures MatchPosition([Prediction(1.0, 1.0, 0.0), Prediction(2.0, 2.0, 0.5)], 1, 3) == Some(1)
  {
    var p := [Prediction(1.0, 1.0, 0.0), Prediction(2.0, 2.0, 0.5)];
    assert Gated(p[1], 1) && Precedes(p[1], p[0], 3) && Precedes(p[1], p[1], 3);
    assert !Precedes(p[0], p[1], 3);
    MatchIs(p, 1, 3, 1);
  }

  /** On equal keys the earlier prediction wins, whichever is closer. */
  lemma EqualKeysExample()
    ensures MatchPosition([Prediction(1.0, 2.0, 0.0), Prediction(1.0, 1.5, 0.0)], 2, 2) == Some(0)
  {
    var p := [Prediction(1.0, 2.0, 0.0), Prediction(1.0, 1.5, 0.0)];
    assert Gated(p[0], 2) && Precedes(p[0], p[0], 2) && Precedes(p[0], p[1], 2);
    MatchIs(p, 2, 2, 0);
  }

  /** The same with the two predictions swapped. */
  lemma EqualKeysSwappedExample()
    ensures MatchPosition([Prediction(1.0, 1.5, 0.0), Prediction(1.0, 2.0, 0.0)], 2, 2) == Some(0)
  {
    var p := [Prediction(1.0, 1.5, 0.0), Prediction(1.0, 2.0, 0.0)];
    assert Gated(p[0], 2) && Precedes(p[0], p[0], 2) && Precedes(p[0], p[1], 2);
    MatchIs(p, 2, 2, 0);
  }

  /** The slope is compared signed: a falling staff (-1.0) wins over a
      flatter rising one (0.5). */
  lemma SignedSlopeExample()
    ensures MatchPosition([Prediction(1.0, 2.0, 0.5), Prediction(1.0, 2.0, -1.0)], 2, 2) == Some(1)
  {
    var p := [Prediction(1.0, 2.0, 0.5), Prediction(1.0, 2.0, -1.0)];
    assert Gated(p[1], 2) && Precedes(p[1], p[0], 2) && Precedes(p[1], p[1], 2);
    assert !Precedes(p[0], p[1], 2);
    MatchIs(p, 2, 2, 1);
  }
}
