/** `detect_staves` of `src/staves.rs`: the column-by-column scan that
    finds the dark cells of each column, predicts every known staff into
    the column, matches each dark cell to at most one staff, feeds the
    matched cells to their staves and starts a new staff for every run of
    unmatched cells.

    The scan is first stated on values (`NextBuffers`, `ScanUpTo`): since
    every staff's state is the replay of its buffer, the buffers alone
    determine the whole scan. Module `Detection` then does the work on
    `Staff` objects and proves that it produces exactly those buffers. */
module Scanner {
  import opened Wrappers
  import opened Grouping
  import opened Matching
  import opened Tracking
  import opened Types

  newtype byte = x: int | 0 <= x < 256

  // ---------------------------------------------------------------------
  // One column, on values
  // ---------------------------------------------------------------------

  /** The 1-based rows of the dark (zero) cells of a column, ascending. */
  function EdgeRows(col: seq<byte>): (r: seq<nat>)
    ensures StrictlyIncreasing(r)
    ensures forall k :: 0 <= k < |r| ==> 1 <= r[k] <= |col|
    ensures forall x: nat :: x in r <==> 1 <= x <= |col| && col[x - 1] == 0
    decreases |col|
  {
    if col == [] then []
    else
      var init := col[..|col| - 1];
      var r := EdgeRows(init);
      assert forall i :: 0 <= i < |init| ==> init[i] == col[i];
      if col[|col| - 1] == 0 then r + [|col|] else r
  }

  function LastEntry(b: seq<Entry>): Entry
    requires |b| > 0
  {
    b[|b| - 1]
  }

  /** Buffers a scan can go on from at column `y`: every history is well
      formed and ends before column `y`. */
  predicate Ready(bs: seq<seq<Entry>>, y: nat)
  {
    forall i :: 0 <= i < |bs| ==> WellFormedHistory(bs[i]) && LastEntry(bs[i]).column < y
  }

  /** The prediction the staff with history `b` makes for column `y`: the
      state replayed from the history, extrapolated from its last column. */
  function PredictionOf(b: seq<Entry>, y: nat): (r: Prediction)
    requires WellFormedHistory(b)
    ensures r.fromY == LastEntry(b).column as real
    ensures r.bias == Replay(b).0.v1
  {
    var s := Replay(b);
    PredictAt(s.0, s.1, LastEntry(b).column, y)
  }

  /** The predictions of all staves, taken before the column changes
      anything. */
  function StatePredictions(bs: seq<seq<Entry>>, y: nat): (r: seq<Prediction>)
    requires forall i :: 0 <= i < |bs| ==> WellFormedHistory(bs[i])
    ensures |r| == |bs|
    ensures forall i :: 0 <= i < |bs| ==> r[i] == PredictionOf(bs[i], y)
  {
    seq(|bs|, i requires 0 <= i < |bs| => PredictionOf(bs[i], y))
  }

  /** The match of every dark cell, computed cell by cell: a cell is
      unmatched exactly when no prediction is within tolerance of it, and
      otherwise matched to a staff whose prediction is. */
  function Matches(preds: seq<Prediction>, pixels: seq<nat>, y: nat): (r: seq<Option<nat>>)
    ensures |r| == |pixels|
    ensures forall k :: 0 <= k < |pixels| ==>
      (r[k].None? <==> forall j :: 0 <= j < |preds| ==> !Gated(preds[j], pixels[k]))
    ensures forall k :: 0 <= k < |pixels| && r[k].Some? ==>
      r[k].value < |preds| && Gated(preds[r[k].value], pixels[k])
  {
    seq(|pixels|, k requires 0 <= k < |pixels| => MatchPosition(preds, pixels[k], y))
  }

  /** The `(cell, staff)` pairs of the matched cells, in cell order. Every
      cell is either among them or among the unmatched cells, never both. */
  function MatchedPairs(pixels: seq<nat>, m: seq<Option<nat>>): (r: seq<(nat, nat)>)
    requires |pixels| == |m|
    ensures |r| + |Unmatched(pixels, m)| == |pixels|
    decreases |pixels|
  {
    if pixels == [] then []
    else
      var n := |pixels| - 1;
      MatchedPairs(pixels[..n], m[..n]) + (if m[n].Some? then [(pixels[n], m[n].value)] else [])
  }

  /** The unmatched cells, in cell order: none when every cell matched,
      all of them when none did. */
  function Unmatched(pixels: seq<nat>, m: seq<Option<nat>>): (r: seq<nat>)
    requires |pixels| == |m|
    ensures |r| <= |pixels|
    decreases |pixels|
  {
    if pixels == [] then []
    else
      var n := |pixels| - 1;
      Unmatched(pixels[..n], m[..n]) + (if m[n].None? then [pixels[n]] else [])
  }

  /** Every staff that received cells gets one new entry holding them:
      every old entry is kept, and a staff grows, by one entry, exactly when
      some cell was matched to it. */
  function Absorb(bs: seq<seq<Entry>>, matched: seq<(nat, nat)>, y: nat): (r: seq<seq<Entry>>)
    ensures |r| == |bs|
    ensures forall i :: 0 <= i < |bs| ==>
      |bs[i]| <= |r[i]| && (forall t :: 0 <= t < |bs[i]| ==> r[i][t] == bs[i][t])
    ensures forall i :: 0 <= i < |bs| ==> (|r[i]| == |bs[i]| + 1 <==> HasKey(matched, i))
    ensures forall i :: 0 <= i < |bs| ==> |r[i]| <= |bs[i]| + 1
  {
    seq(|bs|, i requires 0 <= i < |bs| =>
      if HasKey(matched, i) then bs[i] + [Entry(Values(matched, i), y)] else bs[i])
  }

  /** One new staff per run of unmatched cells. */
  function Spawn(runs: seq<seq<nat>>, y: nat): (r: seq<seq<Entry>>)
    ensures |r| == |runs|
  {
    seq(|runs|, j requires 0 <= j < |runs| => [Entry(runs[j], y)])
  }

  /** Each new staff starts a well-formed history of one entry, for column
      `y`, holding its run. */
  lemma SpawnStarts(runs: seq<seq<nat>>, y: nat)
    ensures forall j :: 0 <= j < |runs| ==>
      |Spawn(runs, y)[j]| == 1 && LastEntry(Spawn(runs, y)[j]) == Entry(runs[j], y)
    ensures forall j :: 0 <= j < |runs| && |runs[j]| > 0 ==> WellFormedHistory(Spawn(runs, y)[j])
  {
  }

  function MatchesOf(bs: seq<seq<Entry>>, pixels: seq<nat>, y: nat): (r: seq<Option<nat>>)
    requires Ready(bs, y)
    ensures |r| == |pixels|
  {
    Matches(StatePredictions(bs, y), pixels, y)
  }

  /** The buffers after the scan handles the dark cells `pixels` of column
      `y`: matched cells go to their staves, grouped by staff, and every
      run of the unmatched cells becomes a new staff. */
  function NextBuffers(bs: seq<seq<Entry>>, pixels: seq<nat>, y: nat): (r: seq<seq<Entry>>)
    requires Ready(bs, y)
    ensures |bs| <= |r| <= |bs| + |pixels|
  {
    var m := MatchesOf(bs, pixels, y);
    Absorb(bs, MatchedPairs(pixels, m), y) + Spawn(Runs(Unmatched(pixels, m)), y)
  }

  // ---------------------------------------------------------------------
  // Properties of one column
  // ---------------------------------------------------------------------

  /** A cell is among the values a staff receives exactly when the cell
      matched that staff. */
  lemma {:induction false} MatchedValues(pixels: seq<nat>, m: seq<Option<nat>>, i: nat)
    requires |pixels| == |m|
    ensures forall x :: x in Values(MatchedPairs(pixels, m), i) <==>
      exists k :: 0 <= k < |pixels| && pixels[k] == x && m[k] == Some(i)
    decreases |pixels|
  {
    if pixels != [] {
      var n := |pixels| - 1;
      MatchedValues(pixels[..n], m[..n], i);
      MatchedValuesStep(pixels, m, i);
    }
  }

  /** Cell `x` matched staff `i`. */
  predicate MatchedTo(pixels: seq<nat>, m: seq<Option<nat>>, i: nat, x: nat)
  {
    exists k :: 0 <= k < |pixels| && k < |m| && pixels[k] == x && m[k] == Some(i)
  }

  /** The values staff `i` receives are exactly the cells that matched it. */
  ghost predicate ValuesMatch(pixels: seq<nat>, m: seq<Option<nat>>, i: nat)
    requires |pixels| == |m|
  {
    forall x :: x in Values(MatchedPairs(pixels, m), i) <==> MatchedTo(pixels, m, i, x)
  }

  /** The inductive step of `MatchedValues`: from the cells before the
      last one to all of them. */
  lemma MatchedValuesStep(pixels: seq<nat>, m: seq<Option<nat>>, i: nat)
    requires |pixels| == |m| > 0
    requires ValuesMatch(pixels[..|pixels| - 1], m[..|m| - 1], i)
    ensures ValuesMatch(pixels, m, i)
  {
    var n := |pixels| - 1;
    var pre, pm := pixels[..n], m[..n];
    var mp := MatchedPairs(pre, pm);
    var vs := Values(mp, i) + (if m[n] == Some(i) then [pixels[n]] else []);
    assert Values(MatchedPairs(pixels, m), i) == vs by {
      if m[n].Some? {
        ValuesAppend(mp, (pixels[n], m[n].value), i);
      } else {
        assert MatchedPairs(pixels, m) == mp;
      }
    }
    forall x ensures x in vs <==> MatchedTo(pixels, m, i, x) {
      if x in Values(mp, i) {
        var k :| 0 <= k < |pre| && k < |pm| && pre[k] == x && pm[k] == Some(i);
        assert pixels[k] == x && m[k] == Some(i);
      }
      if MatchedTo(pixels, m, i, x) && !(x == pixels[n] && m[n] == Some(i)) {
        var k :| 0 <= k < |pixels| && k < |m| && pixels[k] == x && m[k] == Some(i);
        assert k < n && pre[k] == x && pm[k] == Some(i);
        assert MatchedTo(pre, pm, i, x);
      }
    }
  }

  /** A staff receives cells exactly when some cell matched it. */
  lemma MatchedHasKey(pixels: seq<nat>, m: seq<Option<nat>>, i: nat)
    requires |pixels| == |m|
    ensures HasKey(MatchedPairs(pixels, m), i) <==> exists k :: 0 <= k < |pixels| && m[k] == Some(i)
  {
    var v := Values(MatchedPairs(pixels, m), i);
    MatchedValues(pixels, m, i);
    ValuesMembers(MatchedPairs(pixels, m), i);
    if exists k :: 0 <= k < |pixels| && m[k] == Some(i) {
      var k :| 0 <= k < |pixels| && m[k] == Some(i);
      assert pixels[k] in v;
    }
    assert v != [] ==> v[0] in v;
  }

  /** The unmatched cells are exactly the cells without a match, and they
      stay ascending. */
  lemma {:induction false} UnmatchedMembers(pixels: seq<nat>, m: seq<Option<nat>>)
    requires |pixels| == |m|
    ensures forall x :: x in Unmatched(pixels, m) <==> exists k :: 0 <= k < |pixels| && pixels[k] == x && m[k].None?
    ensures StrictlyIncreasing(pixels) ==> StrictlyIncreasing(Unmatched(pixels, m))
    decreases |pixels|
  {
    if pixels != [] {
      var n := |pixels| - 1;
      UnmatchedMembers(pixels[..n], m[..n]);
      assert forall k :: 0 <= k < n ==> pixels[..n][k] == pixels[k] && m[..n][k] == m[k];
      var u := Unmatched(pixels[..n], m[..n]);
      if StrictlyIncreasing(pixels) {
        assert StrictlyIncreasing(pixels[..n]);
        forall x | x in u ensures x < pixels[n] {
          var k :| 0 <= k < n && pixels[k] == x && m[k].None?;
        }
        if m[n].None? {
          var u' := u + [pixels[n]];
          forall a, b | 0 <= a < b < |u'| ensures u'[a] < u'[b] {
            if b == |u| {
              assert u'[a] in u;
            } else {
              assert u'[a] == u[a] && u'[b] == u[b];
            }
          }
        }
      }
    }
  }

  /** The staves a column matches are among the predicting staves. */
  lemma MatchedKeysBound(preds: seq<Prediction>, pixels: seq<nat>, y: nat, i: nat)
    requires HasKey(MatchedPairs(pixels, Matches(preds, pixels, y)), i)
    ensures i < |preds|
  {
    MatchedHasKey(pixels, Matches(preds, pixels, y), i);
  }

  /** One column keeps every history well formed and ends it at or before
      column `y`. */
  lemma NextBuffersReady(bs: seq<seq<Entry>>, pixels: seq<nat>, y: nat)
    requires Ready(bs, y)
    ensures Ready(NextBuffers(bs, pixels, y), y + 1)
  {
    var m := MatchesOf(bs, pixels, y);
    RunsShape(Unmatched(pixels, m));
    ReadyAfter(bs, MatchedPairs(pixels, m), Runs(Unmatched(pixels, m)), y);
  }

  /** Absorbing matched cells into ready staves and appending staves for
      non-empty runs leaves every staff ready for the next column. */
  lemma ReadyAfter(bs: seq<seq<Entry>>, matched: seq<(nat, nat)>, runs: seq<seq<nat>>, y: nat)
    requires Ready(bs, y) && NonEmptyGroups(runs)
    ensures Ready(Absorb(bs, matched, y) + Spawn(runs, y), y + 1)
  {
    var absorbed := Absorb(bs, matched, y);
    forall i | 0 <= i < |bs| ensures WellFormedHistory(absorbed[i]) && LastEntry(absorbed[i]).column < y + 1 {
      if HasKey(matched, i) {
        ValuesMembers(matched, i);
        HistoryAppend(bs[i], Entry(Values(matched, i), y));
      }
    }
    var spawned := Spawn(runs, y);
    forall j | 0 <= j < |runs| ensures WellFormedHistory(spawned[j]) && LastEntry(spawned[j]).column < y + 1 {
      assert |runs[j]| > 0;
    }
    ReadyConcat(absorbed, spawned, y + 1);
  }

  lemma ReadyConcat(a: seq<seq<Entry>>, b: seq<seq<Entry>>, y: nat)
    requires Ready(a, y) && Ready(b, y)
    ensures Ready(a + b, y)
  {
    var ab := a + b;
    forall i | 0 <= i < |ab| ensures WellFormedHistory(ab[i]) && LastEntry(ab[i]).column < y {
      if i < |a| {
        assert ab[i] == a[i];
      } else {
        assert ab[i] == b[i - |a|];
      }
    }
  }

  /** Old staves are only ever extended by one entry for column `y`, and
      new staves are appended after them, each with a single entry for
      column `y`. */
  lemma NextBuffersAppendOnly(bs: seq<seq<Entry>>, pixels: seq<nat>, y: nat)
    requires Ready(bs, y)
    ensures AppendOnly(bs, NextBuffers(bs, pixels, y), y)
  {
    var m := MatchesOf(bs, pixels, y);
    AppendOnlyAfter(bs, MatchedPairs(pixels, m), Runs(Unmatched(pixels, m)), y);
  }

  lemma AppendOnlyAfter(bs: seq<seq<Entry>>, matched: seq<(nat, nat)>, runs: seq<seq<nat>>, y: nat)
    ensures AppendOnly(bs, Absorb(bs, matched, y) + Spawn(runs, y), y)
  {
    var absorbed, spawned := Absorb(bs, matched, y), Spawn(runs, y);
    var nb := absorbed + spawned;
    forall i | 0 <= i < |bs|
      ensures nb[i] == bs[i] || (|nb[i]| == |bs[i]| + 1 && nb[i][..|bs[i]|] == bs[i] && LastEntry(nb[i]).column == y)
    {
      assert nb[i] == absorbed[i];
    }
    forall i | |bs| <= i < |nb| ensures |nb[i]| == 1 && nb[i][0].column == y {
      assert nb[i] == spawned[i - |bs|];
    }
  }

  /** `nb` keeps the staves `bs`, extending each by at most one entry for
      column `y`, and appends staves holding one entry for column `y`. */
  predicate AppendOnly(bs: seq<seq<Entry>>, nb: seq<seq<Entry>>, y: nat)
  {
    |nb| >= |bs|
    && (forall i :: 0 <= i < |bs| ==>
      nb[i] == bs[i] || (|nb[i]| == |bs[i]| + 1 && nb[i][..|bs[i]|] == bs[i] && LastEntry(nb[i]).column == y))
    && (forall i :: |bs| <= i < |nb| ==> |nb[i]| == 1 && nb[i][0].column == y)
  }

  /** Cell `x` is in the entry for column `y` at the end of history `b`. */
  predicate InLastEntry(b: seq<Entry>, x: nat, y: nat)
  {
    |b| > 0 && LastEntry(b).column == y && x in LastEntry(b).pixels
  }

  /** Where a cell that ends up in a last entry for column `y` came from: a
      matched cell of an old staff, or an unmatched cell of a new one. */
  lemma LastEntrySource(bs: seq<seq<Entry>>, pixels: seq<nat>, y: nat, i: nat, x: nat)
    requires Ready(bs, y)
    requires i < |NextBuffers(bs, pixels, y)| && InLastEntry(NextBuffers(bs, pixels, y)[i], x, y)
    ensures var m := MatchesOf(bs, pixels, y);
      exists k :: 0 <= k < |pixels| && pixels[k] == x
        && (i < |bs| ==> m[k] == Some(i)) && (i >= |bs| ==> m[k].None?)
    ensures i >= |bs| ==>
      (|bs| <= i < |bs| + |Runs(Unmatched(pixels, MatchesOf(bs, pixels, y)))|
       && x in Runs(Unmatched(pixels, MatchesOf(bs, pixels, y)))[i - |bs|])
  {
    var m := MatchesOf(bs, pixels, y);
    assert NextBuffers(bs, pixels, y) == Absorb(bs, MatchedPairs(pixels, m), y) + Spawn(Runs(Unmatched(pixels, m)), y);
    SourceOf(bs, pixels, m, y, i, x);
  }

  lemma SourceOf(bs: seq<seq<Entry>>, pixels: seq<nat>, m: seq<Option<nat>>, y: nat, i: nat, x: nat)
    requires Ready(bs, y) && |pixels| == |m|
    requires var nb := Absorb(bs, MatchedPairs(pixels, m), y) + Spawn(Runs(Unmatched(pixels, m)), y);
      i < |nb| && InLastEntry(nb[i], x, y)
    ensures exists k :: (0 <= k < |pixels| && pixels[k] == x
      && (i < |bs| ==> m[k] == Some(i)) && (i >= |bs| ==> m[k].None?))
    ensures i >= |bs| ==>
      (|bs| <= i < |bs| + |Runs(Unmatched(pixels, m))| && x in Runs(Unmatched(pixels, m))[i - |bs|])
  {
    var absorbed, runs := Absorb(bs, MatchedPairs(pixels, m), y), Runs(Unmatched(pixels, m));
    var nb := absorbed + Spawn(runs, y);
    if i < |bs| {
      assert nb[i] == absorbed[i];
      AbsorbedSource(bs, pixels, m, y, i, x);
      var k :| 0 <= k < |pixels| && pixels[k] == x && m[k] == Some(i);
    } else {
      var j := i - |bs|;
      assert nb[i] == Spawn(runs, y)[j];
      RunSource(pixels, m, j, x);
      var k :| 0 <= k < |pixels| && pixels[k] == x && m[k].None?;
    }
  }

  /** A cell in the entry an old staff gains for column `y` matched that
      staff. */
  lemma AbsorbedSource(bs: seq<seq<Entry>>, pixels: seq<nat>, m: seq<Option<nat>>, y: nat, i: nat, x: nat)
    requires Ready(bs, y) && |pixels| == |m| && i < |bs|
    requires InLastEntry(Absorb(bs, MatchedPairs(pixels, m), y)[i], x, y)
    ensures exists k :: 0 <= k < |pixels| && pixels[k] == x && m[k] == Some(i)
  {
    MatchedValues(pixels, m, i);
  }

  /** A cell of a run of unmatched cells is an unmatched cell. */
  lemma RunSource(pixels: seq<nat>, m: seq<Option<nat>>, j: nat, x: nat)
    requires |pixels| == |m| && j < |Runs(Unmatched(pixels, m))|
    requires x in Runs(Unmatched(pixels, m))[j]
    ensures exists k :: 0 <= k < |pixels| && pixels[k] == x && m[k].None?
  {
    var u := Unmatched(pixels, m);
    RunsFlatten(u);
    FlattenMembers(Runs(u), x);
    UnmatchedMembers(pixels, m);
  }

  /** An unmatched cell lies in some run of the unmatched cells. */
  lemma UnmatchedInRun(pixels: seq<nat>, m: seq<Option<nat>>, k: nat)
    requires |pixels| == |m| && k < |pixels| && m[k].None?
    ensures exists j :: 0 <= j < |Runs(Unmatched(pixels, m))| && pixels[k] in Runs(Unmatched(pixels, m))[j]
  {
    var u := Unmatched(pixels, m);
    UnmatchedMembers(pixels, m);
    RunsFlatten(u);
    FlattenMembers(Runs(u), pixels[k]);
  }

  lemma StrictlyIncreasingIndex(s: seq<nat>, k1: nat, k2: nat)
    requires StrictlyIncreasing(s) && k1 < |s| && k2 < |s| && s[k1] == s[k2]
    ensures k1 == k2
  {
  }

  /** A matched cell goes to the last entry of its staff. */
  lemma MatchedCellOwned(bs: seq<seq<Entry>>, pixels: seq<nat>, y: nat, k: nat)
    requires Ready(bs, y) && k < |pixels| && MatchesOf(bs, pixels, y)[k].Some?
    ensures var i := MatchesOf(bs, pixels, y)[k].value;
      i < |NextBuffers(bs, pixels, y)| && InLastEntry(NextBuffers(bs, pixels, y)[i], pixels[k], y)
  {
    var m := MatchesOf(bs, pixels, y);
    var matched := MatchedPairs(pixels, m);
    var i := m[k].value;
    assert m[k] == MatchPosition(StatePredictions(bs, y), pixels[k], y);
    assert i < |bs|;
    MatchedHasKey(pixels, m, i);
    MatchedValues(pixels, m, i);
    var nb := NextBuffers(bs, pixels, y);
    assert nb[i] == Absorb(bs, matched, y)[i];
  }

  /** An unmatched cell goes to the only entry of a new staff. */
  lemma UnmatchedCellOwned(bs: seq<seq<Entry>>, pixels: seq<nat>, y: nat, k: nat)
    requires Ready(bs, y) && k < |pixels| && MatchesOf(bs, pixels, y)[k].None?
    ensures exists i :: 0 <= i < |NextBuffers(bs, pixels, y)| && InLastEntry(NextBuffers(bs, pixels, y)[i], pixels[k], y)
  {
    var m := MatchesOf(bs, pixels, y);
    assert NextBuffers(bs, pixels, y) == Absorb(bs, MatchedPairs(pixels, m), y) + Spawn(Runs(Unmatched(pixels, m)), y);
    SpawnedOwner(bs, pixels, m, y, k);
  }

  lemma SpawnedOwner(bs: seq<seq<Entry>>, pixels: seq<nat>, m: seq<Option<nat>>, y: nat, k: nat)
    requires |pixels| == |m| && k < |pixels| && m[k].None?
    ensures exists i :: (0 <= i < |bs| + |Runs(Unmatched(pixels, m))|
      && InLastEntry((Absorb(bs, MatchedPairs(pixels, m), y) + Spawn(Runs(Unmatched(pixels, m)), y))[i], pixels[k], y))
  {
    var runs := Runs(Unmatched(pixels, m));
    UnmatchedInRun(pixels, m, k);
    var j :| 0 <= j < |runs| && pixels[k] in runs[j];
    var absorbed := Absorb(bs, MatchedPairs(pixels, m), y);
    SpawnedHolds(absorbed, runs, y, j, pixels[k]);
    assert InLastEntry((absorbed + Spawn(runs, y))[|bs| + j], pixels[k], y);
  }

  /** A cell of run `j` is in the entry of the staff started for it. */
  lemma SpawnedHolds(a: seq<seq<Entry>>, runs: seq<seq<nat>>, y: nat, j: nat, x: nat)
    requires j < |runs| && x in runs[j]
    ensures |a| + j < |a + Spawn(runs, y)| && InLastEntry((a + Spawn(runs, y))[|a| + j], x, y)
  {
    assert (a + Spawn(runs, y))[|a| + j] == Spawn(runs, y)[j];
  }

  /** Every dark cell of column `y` ends up in the last entry of some
      staff. */
  lemma EdgeOwned(bs: seq<seq<Entry>>, pixels: seq<nat>, y: nat, x: nat)
    requires Ready(bs, y) && x in pixels
    ensures var nb := NextBuffers(bs, pixels, y);
      exists i :: 0 <= i < |nb| && InLastEntry(nb[i], x, y)
  {
    var k :| 0 <= k < |pixels| && pixels[k] == x;
    if MatchesOf(bs, pixels, y)[k].Some? {
      MatchedCellOwned(bs, pixels, y, k);
    } else {
      UnmatchedCellOwned(bs, pixels, y, k);
    }
  }

  /** No cell is in the last entries of two staves. */
  lemma EdgeOwnedOnce(bs: seq<seq<Entry>>, pixels: seq<nat>, y: nat, x: nat, i: nat, j: nat)
    requires Ready(bs, y) && StrictlyIncreasing(pixels)
    requires i < |NextBuffers(bs, pixels, y)| && InLastEntry(NextBuffers(bs, pixels, y)[i], x, y)
    requires j < |NextBuffers(bs, pixels, y)| && InLastEntry(NextBuffers(bs, pixels, y)[j], x, y)
    ensures i == j
  {
    var m := MatchesOf(bs, pixels, y);
    var u := Unmatched(pixels, m);
    var runs := Runs(u);
    LastEntrySource(bs, pixels, y, i, x);
    LastEntrySource(bs, pixels, y, j, x);
    var ki :| 0 <= ki < |pixels| && pixels[ki] == x && (i < |bs| ==> m[ki] == Some(i)) && (i >= |bs| ==> m[ki].None?);
    var kj :| 0 <= kj < |pixels| && pixels[kj] == x && (j < |bs| ==> m[kj] == Some(j)) && (j >= |bs| ==> m[kj].None?);
    StrictlyIncreasingIndex(pixels, ki, kj);
    if m[ki].None? {
      UnmatchedMembers(pixels, m);
      RunsFlatten(u);
      FlattenMembers(runs, x);
    }
  }

  /** Every dark cell of column `y` ends up in the last entry of exactly
      one staff, and only dark cells do. */
  lemma NextBuffersOwnership(bs: seq<seq<Entry>>, pixels: seq<nat>, y: nat, x: nat)
    requires Ready(bs, y) && StrictlyIncreasing(pixels)
    ensures var nb := NextBuffers(bs, pixels, y);
      (x in pixels <==> exists i :: 0 <= i < |nb| && InLastEntry(nb[i], x, y))
      && forall i, j :: 0 <= i < |nb| && 0 <= j < |nb| && InLastEntry(nb[i], x, y) && InLastEntry(nb[j], x, y) ==> i == j
  {
    var nb := NextBuffers(bs, pixels, y);
    if x in pixels {
      EdgeOwned(bs, pixels, y, x);
    }
    forall i | 0 <= i < |nb| && InLastEntry(nb[i], x, y) ensures x in pixels {
      LastEntrySource(bs, pixels, y, i, x);
    }
    forall i, j | 0 <= i < |nb| && 0 <= j < |nb| && InLastEntry(nb[i], x, y) && InLastEntry(nb[j], x, y)
      ensures i == j
    {
      EdgeOwnedOnce(bs, pixels, y, x, i, j);
    }
  }

  // ---------------------------------------------------------------------
  // The whole scan, on values
  // ---------------------------------------------------------------------

  /** The buffers after the first `n` columns: a column without dark cells
      is skipped, the others go through `NextBuffers` with their 1-based
      index as column. */
  function ScanUpTo(columns: seq<seq<byte>>, n: nat): (r: seq<seq<Entry>>)
    requires n <= |columns|
    ensures Ready(r, n + 1)
    decreases n
  {
    if n == 0 then []
    else
      var bs := ScanUpTo(columns, n - 1);
      var pixels := EdgeRows(columns[n - 1]);
      if |pixels| == 0 then bs
      else
        NextBuffersReady(bs, pixels, n);
        NextBuffers(bs, pixels, n)
  }

  /** One more column of the scan: skipped without dark cells, absorbed
      otherwise. */
  lemma ScanNext(columns: seq<seq<byte>>, n: nat)
    requires n < |columns|
    ensures |EdgeRows(columns[n])| == 0 ==> ScanUpTo(columns, n + 1) == ScanUpTo(columns, n)
    ensures |EdgeRows(columns[n])| > 0 ==>
      Ready(ScanUpTo(columns, n), n + 1)
      && ScanUpTo(columns, n + 1) == NextBuffers(ScanUpTo(columns, n), EdgeRows(columns[n]), n + 1)
  {
  }

  predicate NoEdges(col: seq<byte>)
  {
    forall r :: 0 <= r < |col| ==> col[r] != 0
  }

  lemma {:induction false} NoEdgeRows(col: seq<byte>)
    requires NoEdges(col)
    ensures EdgeRows(col) == []
    decreases |col|
  {
    if col != [] {
      var init := col[..|col| - 1];
      assert forall r :: 0 <= r < |init| ==> init[r] == col[r];
      NoEdgeRows(init);
    }
  }

  /** A column without dark cells changes nothing. */
  lemma EmptyColumnChangesNothing(columns: seq<seq<byte>>, n: nat)
    requires 1 <= n <= |columns| && NoEdges(columns[n - 1])
    ensures ScanUpTo(columns, n) == ScanUpTo(columns, n - 1)
  {
    NoEdgeRows(columns[n - 1]);
  }

  /** Cell `x` is in the entry of history `b` for column `c`. */
  predicate Holds(b: seq<Entry>, x: nat, c: nat)
  {
    exists t :: 0 <= t < |b| && b[t].column == c && x in b[t].pixels
  }

  /** A history that ends before column `y` holds nothing for columns from
      `y` on. */
  lemma NothingHeldYet(b: seq<Entry>, y: nat, x: nat, c: nat)
    requires WellFormedHistory(b) && LastEntry(b).column < y <= c
    ensures !Holds(b, x, c)
  {
    assert forall t :: 0 <= t < |b| - 1 ==> b[t].column < LastEntry(b).column;
  }

  /** For the column just scanned, being held means being in the last
      entry. */
  lemma HeldInNewColumn(bs: seq<seq<Entry>>, pixels: seq<nat>, y: nat, x: nat)
    requires Ready(bs, y)
    ensures var nb := NextBuffers(bs, pixels, y);
      forall i :: 0 <= i < |nb| ==> (Holds(nb[i], x, y) <==> InLastEntry(nb[i], x, y))
  {
    NextBuffersAppendOnly(bs, pixels, y);
    HeldInLastEntry(bs, NextBuffers(bs, pixels, y), y, x);
  }

  lemma HeldInLastEntry(bs: seq<seq<Entry>>, nb: seq<seq<Entry>>, y: nat, x: nat)
    requires Ready(bs, y) && AppendOnly(bs, nb, y)
    ensures forall i :: 0 <= i < |nb| ==> (Holds(nb[i], x, y) <==> InLastEntry(nb[i], x, y))
  {
    forall i | 0 <= i < |nb| ensures Holds(nb[i], x, y) <==> InLastEntry(nb[i], x, y) {
      if i < |bs| {
        NothingHeldYet(bs[i], y, x, y);
        if nb[i] != bs[i] {
          assert forall t :: 0 <= t < |bs[i]| ==> nb[i][t] == bs[i][t];
        }
      }
    }
  }

  /** For earlier columns, scanning column `y` changes nothing that is
      held. */
  lemma HeldInOldColumn(bs: seq<seq<Entry>>, pixels: seq<nat>, y: nat, x: nat, c: nat)
    requires Ready(bs, y) && c < y
    ensures var nb := NextBuffers(bs, pixels, y);
      forall i :: 0 <= i < |nb| ==> (Holds(nb[i], x, c) <==> i < |bs| && Holds(bs[i], x, c))
  {
    NextBuffersAppendOnly(bs, pixels, y);
    HeldAsBefore(bs, NextBuffers(bs, pixels, y), y, x, c);
  }

  lemma HeldAsBefore(bs: seq<seq<Entry>>, nb: seq<seq<Entry>>, y: nat, x: nat, c: nat)
    requires AppendOnly(bs, nb, y) && c < y
    ensures forall i :: 0 <= i < |nb| ==> (Holds(nb[i], x, c) <==> i < |bs| && Holds(bs[i], x, c))
  {
    forall i | 0 <= i < |nb| ensures Holds(nb[i], x, c) <==> i < |bs| && Holds(bs[i], x, c) {
      if i < |bs| {
        if nb[i] != bs[i] {
          assert forall t :: 0 <= t < |bs[i]| ==> nb[i][t] == bs[i][t];
          assert nb[i][|bs[i]|].column == y;
        }
      }
    }
  }

  /** In the staves `s`, cell `x` is held for column `c` by some staff
      exactly when `edge` holds, and never by two staves. */
  predicate Owned(s: seq<seq<Entry>>, x: nat, c: nat, edge: bool)
  {
    ((exists i :: 0 <= i < |s| && Holds(s[i], x, c)) <==> edge)
    && forall i, j :: 0 <= i < |s| && 0 <= j < |s| && Holds(s[i], x, c) && Holds(s[j], x, c) ==> i == j
  }

  /** Going from `bs` to `s` keeps, for column `c`, exactly what `bs` held
      for cell `x`, at the same staff indices. */
  predicate Carries(s: seq<seq<Entry>>, bs: seq<seq<Entry>>, x: nat, c: nat)
  {
    |bs| <= |s| && forall i :: 0 <= i < |s| ==> (Holds(s[i], x, c) <==> i < |bs| && Holds(bs[i], x, c))
  }

  /** `s2` keeps every staff of `s1` at its index, and every history of
      `s1` as a prefix. */
  predicate Extends(s1: seq<seq<Entry>>, s2: seq<seq<Entry>>)
  {
    |s1| <= |s2| && forall i :: 0 <= i < |s1| ==> |s1[i]| <= |s2[i]| && s2[i][..|s1[i]|] == s1[i]
  }

  /** Ownership for the column just scanned. */
  lemma OwnershipAtColumn(columns: seq<seq<byte>>, n: nat, x: nat)
    requires 1 <= n <= |columns|
    ensures Owned(ScanUpTo(columns, n), x, n, x in EdgeRows(columns[n - 1]))
  {
    var bs := ScanUpTo(columns, n - 1);
    var pixels := EdgeRows(columns[n - 1]);
    if |pixels| == 0 {
      assert ScanUpTo(columns, n) == bs;
      forall i | 0 <= i < |bs| ensures !Holds(bs[i], x, n) {
        NothingHeldYet(bs[i], n, x, n);
      }
    } else {
      assert ScanUpTo(columns, n) == NextBuffers(bs, pixels, n);
      HeldInNewColumn(bs, pixels, n, x);
      NextBuffersOwnership(bs, pixels, n, x);
    }
  }

  /** Ownership for an earlier column carries over one more column. */
  lemma OwnershipCarried(columns: seq<seq<byte>>, n: nat, c: nat, x: nat)
    requires 1 <= c < n <= |columns|
    ensures Carries(ScanUpTo(columns, n), ScanUpTo(columns, n - 1), x, c)
  {
    var bs := ScanUpTo(columns, n - 1);
    var pixels := EdgeRows(columns[n - 1]);
    if |pixels| > 0 {
      assert ScanUpTo(columns, n) == NextBuffers(bs, pixels, n);
      NextBuffersAppendOnly(bs, pixels, n);
      HeldInOldColumn(bs, pixels, n, x, c);
    } else {
      assert ScanUpTo(columns, n) == bs;
    }
  }

  /** The scan's main invariant: for every scanned column `c`, a cell is
      held by some staff for column `c` exactly when it is a dark cell of
      that column, and then by exactly one staff. */
  lemma ScanOwnership(columns: seq<seq<byte>>, n: nat, c: nat, x: nat)
    requires 1 <= c <= n <= |columns|
    ensures Owned(ScanUpTo(columns, n), x, c, x in EdgeRows(columns[c - 1]))
  {
    var f := Trace(columns);
    OwnershipAtColumn(columns, c, x);
    forall k | c < k <= n ensures Carries(f(k), f(k - 1), x, c) {
      OwnershipCarried(columns, k, c, x);
    }
    ChainOwned(f, c, n, x, x in EdgeRows(columns[c - 1]));
  }

  /** The buffers after every prefix of the scan, as one function. */
  function Trace(columns: seq<seq<byte>>): (f: nat -> seq<seq<Entry>>)
    ensures forall n: nat :: n <= |columns| ==> f(n) == ScanUpTo(columns, n)
  {
    (k: nat) => if k <= |columns| then ScanUpTo(columns, k) else []
  }

  /** Ownership for column `c` survives every later step that carries it. */
  lemma {:induction false} ChainOwned(f: nat -> seq<seq<Entry>>, c: nat, n: nat, x: nat, edge: bool)
    requires c <= n && Owned(f(c), x, c, edge)
    requires forall k :: c < k <= n ==> Carries(f(k), f(k - 1), x, c)
    ensures Owned(f(n), x, c, edge)
    decreases n
  {
    if c < n {
      ChainOwned(f, c, n - 1, x, edge);
      CarryOwnership(f(n), f(n - 1), x, c, edge);
    }
  }

  lemma CarryOwnership(s: seq<seq<Entry>>, bs: seq<seq<Entry>>, x: nat, c: nat, edge: bool)
    requires Carries(s, bs, x, c) && Owned(bs, x, c, edge)
    ensures Owned(s, x, c, edge)
  {
    if exists i :: 0 <= i < |bs| && Holds(bs[i], x, c) {
      var i :| 0 <= i < |bs| && Holds(bs[i], x, c);
      assert Holds(s[i], x, c);
    }
  }

  /** One more column only extends histories at their end and appends
      staves. */
  lemma ScanStep(columns: seq<seq<byte>>, n: nat)
    requires 1 <= n <= |columns|
    ensures Extends(ScanUpTo(columns, n - 1), ScanUpTo(columns, n))
  {
    var bs := ScanUpTo(columns, n - 1);
    var pixels := EdgeRows(columns[n - 1]);
    if |pixels| > 0 {
      assert ScanUpTo(columns, n) == NextBuffers(bs, pixels, n);
      NextBuffersAppendOnly(bs, pixels, n);
    } else {
      assert ScanUpTo(columns, n) == bs;
    }
  }

  /** Staves are only ever appended, and a staff's history only ever grows
      at its end. */
  lemma ScanGrows(columns: seq<seq<byte>>, n1: nat, n2: nat)
    requires n1 <= n2 <= |columns|
    ensures Extends(ScanUpTo(columns, n1), ScanUpTo(columns, n2))
  {
    var f := Trace(columns);
    forall k | n1 < k <= n2 ensures Extends(f(k - 1), f(k)) {
      ScanStep(columns, k);
    }
    ChainExtends(f, n1, n2);
  }

  /** A chain of one-step extensions is an extension. */
  lemma {:induction false} ChainExtends(f: nat -> seq<seq<Entry>>, n1: nat, n2: nat)
    requires n1 <= n2
    requires forall k :: n1 < k <= n2 ==> Extends(f(k - 1), f(k))
    ensures Extends(f(n1), f(n2))
    decreases n2
  {
    if n1 == n2 {
      ExtendsItself(f(n1));
    } else {
      ChainExtends(f, n1, n2 - 1);
      PrefixesCompose(f(n1), f(n2 - 1), f(n2));
    }
  }

  lemma ExtendsItself(s: seq<seq<Entry>>)
    ensures Extends(s, s)
  {
    forall i | 0 <= i < |s| ensures s[i][..|s[i]|] == s[i] {
    }
  }

  lemma PrefixesCompose(s1: seq<seq<Entry>>, mid: seq<seq<Entry>>, s2: seq<seq<Entry>>)
    requires Extends(s1, mid) && Extends(mid, s2)
    ensures Extends(s1, s2)
  {
    forall i | 0 <= i < |s1| ensures |s1[i]| <= |s2[i]| && s2[i][..|s1[i]|] == s1[i] {
      assert s2[i][..|s1[i]|] == s2[i][..|mid[i]|][..|s1[i]|];
    }
  }

  // ---------------------------------------------------------------------
  // A single steady line
  // ---------------------------------------------------------------------

  /** The history of a line seen on row `row`, and nowhere else, in every
      column from 1 to `n`. */
  function SteadyHistory(row: nat, n: nat): (b: seq<Entry>)
    ensures |b| == n
    ensures forall k :: 0 <= k < n ==> b[k] == Entry([row], k + 1)
  {
    seq(n, k requires 0 <= k < n => Entry([row], k + 1))
  }

  /** A steady history is well formed, and replaying it leaves the line at
      rest on the centre of its row. */
  lemma {:induction false} SteadyReplay(row: nat, n: nat)
    requires n >= 1
    ensures WellFormedHistory(SteadyHistory(row, n))
    ensures Replay(SteadyHistory(row, n)).0 == M2x1(row as real + 0.5, 0.0)
  {
    SteadyWellFormed(row, n);
    if n == 1 {
      assert Sum([row]) == row by { assert [row][1..] == []; }
      assert SteadyHistory(row, 1) == [Entry([row], 1)];
    } else {
      SteadyReplay(row, n - 1);
      SteadyReplayStep(row, n);
    }
  }

  lemma SteadyWellFormed(row: nat, n: nat)
    requires n >= 1
    ensures WellFormedHistory(SteadyHistory(row, n))
  {
  }

  /** One more column of a steady history keeps the line at rest. */
  lemma SteadyReplayStep(row: nat, n: nat)
    requires n >= 2
    requires WellFormedHistory(SteadyHistory(row, n - 1))
    requires Replay(SteadyHistory(row, n - 1)).0 == M2x1(row as real + 0.5, 0.0)
    ensures WellFormedHistory(SteadyHistory(row, n))
    ensures Replay(SteadyHistory(row, n)).0 == M2x1(row as real + 0.5, 0.0)
  {
    var b := SteadyHistory(row, n);
    SteadyWellFormed(row, n);
    var init := b[..n - 1];
    assert init == SteadyHistory(row, n - 1);
    var s := Replay(init);
    assert s.1 == Diag(s.1.m00, s.1.m11);
    assert init[n - 2] == Entry([row], n - 1) && b[n - 1] == Entry([row], n);
    SteadyLineStaysPut(row, n - 1, s.1.m00, s.1.m11);
  }

  /** The prediction of a steady line for the next column: one column
      away, on the centre of its row, so that row is gated. */
  lemma SteadyPrediction(row: nat, n: nat)
    requires n >= 1
    ensures WellFormedHistory(SteadyHistory(row, n))
    ensures PredictionOf(SteadyHistory(row, n), n + 1) == Prediction(n as real, row as real + 0.5, 0.0)
    ensures Gated(Prediction(n as real, row as real + 0.5, 0.0), row)
  {
    SteadyReplay(row, n);
  }

  /** The column after a steady line, holding only its row, extends the
      line and starts nothing. */
  lemma SteadyStep(row: nat, n: nat)
    requires n >= 1
    ensures Ready([SteadyHistory(row, n)], n + 1)
    ensures NextBuffers([SteadyHistory(row, n)], [row], n + 1) == [SteadyHistory(row, n + 1)]
  {
    var bs := [SteadyHistory(row, n)];
    SteadyMatch(row, n);
    var m := MatchesOf(bs, [row], n + 1);
    OneCellMatched(row, m);
    SteadyAbsorb(row, n);
  }

  /** The cell on the row of a steady line matches that line. */
  lemma SteadyMatch(row: nat, n: nat)
    requires n >= 1
    ensures Ready([SteadyHistory(row, n)], n + 1)
    ensures MatchesOf([SteadyHistory(row, n)], [row], n + 1) == [Some(0)]
  {
    SteadyPrediction(row, n);
    assert StatePredictions([SteadyHistory(row, n)], n + 1) == [Prediction(n as real, row as real + 0.5, 0.0)];
  }

  /** One cell matched to staff 0 is one matched pair and leaves nothing
      unmatched. */
  lemma OneCellMatched(row: nat, m: seq<Option<nat>>)
    requires m == [Some(0)]
    ensures MatchedPairs([row], m) == [(row, 0)]
    ensures Unmatched([row], m) == []
  {
    assert [row][..0] == [] && m[..0] == [];
  }

  /** Absorbing the pair `(row, 0)` appends the next column's entry. */
  lemma SteadyAbsorb(row: nat, n: nat)
    ensures Absorb([SteadyHistory(row, n)], [(row, 0)], n + 1) == [SteadyHistory(row, n + 1)]
  {
    assert Values([(row, 0)], 0) == [row] by {
      assert [(row, 0)][..0] == [];
    }
    assert HasKey([(row, 0)], 0);
    assert SteadyHistory(row, n + 1) == SteadyHistory(row, n) + [Entry([row], n + 1)];
  }

  /** The first column of the scan starts one staff per run of its dark
      cells; one dark cell starts one staff. */
  lemma FirstColumn(row: nat)
    ensures Ready([], 1)
    ensures NextBuffers([], [row], 1) == [SteadyHistory(row, 1)]
  {
    var m := MatchesOf([], [row], 1);
    assert m == [None];
    assert MatchedPairs([row], m) == [] by {
      assert [row][..0] == [] && m[..0] == [];
    }
    assert Unmatched([row], m) == [row] by {
      assert [row][..0] == [] && m[..0] == [];
    }
    assert Runs([row]) == [[row]];
    assert SteadyHistory(row, 1) == [Entry([row], 1)];
  }

  /** An uninterrupted line: when every one of the first `n` columns has
      exactly one dark cell, on the same row, the scan keeps exactly one
      staff, whose history holds that row once for every column. */
  lemma SingleLineScan(columns: seq<seq<byte>>, row: nat, n: nat)
    requires 1 <= n <= |columns|
    requires forall k :: 0 <= k < n ==> EdgeRows(columns[k]) == [row]
    ensures ScanUpTo(columns, n) == [SteadyHistory(row, n)]
  {
    var f := Trace(columns);
    SingleLineStarts(columns, row);
    forall k | 1 <= k < n && f(k) == [SteadyHistory(row, k)] ensures f(k + 1) == [SteadyHistory(row, k + 1)] {
      SingleLineGoesOn(columns, row, k);
    }
    ChainSteady(f, row, n);
  }

  /** A steady line that goes on from every prefix reaches the end. */
  lemma {:induction false} ChainSteady(f: nat -> seq<seq<Entry>>, row: nat, n: nat)
    requires n >= 1 && f(1) == [SteadyHistory(row, 1)]
    requires forall k :: 1 <= k < n && f(k) == [SteadyHistory(row, k)] ==> f(k + 1) == [SteadyHistory(row, k + 1)]
    ensures f(n) == [SteadyHistory(row, n)]
    decreases n
  {
    if n > 1 {
      ChainSteady(f, row, n - 1);
    }
  }

  lemma SingleLineStarts(columns: seq<seq<byte>>, row: nat)
    requires 1 <= |columns| && EdgeRows(columns[0]) == [row]
    ensures ScanUpTo(columns, 1) == [SteadyHistory(row, 1)]
  {
    ScanNext(columns, 0);
    FirstColumn(row);
  }

  lemma SingleLineGoesOn(columns: seq<seq<byte>>, row: nat, n: nat)
    requires 1 <= n < |columns| && EdgeRows(columns[n]) == [row]
    requires ScanUpTo(columns, n) == [SteadyHistory(row, n)]
    ensures ScanUpTo(columns, n + 1) == [SteadyHistory(row, n + 1)]
  {
    ScanNext(columns, n);
    SteadyStep(row, n);
  }

  /** Ten columns of three cells whose middle cell is dark give one staff
      with ten entries, one per column. */
  lemma TenColumnLine(columns: seq<seq<byte>>)
    requires |columns| == 10 && forall k :: 0 <= k < |columns| ==> columns[k] == [1, 0, 1]
    ensures |ScanUpTo(columns, |columns|)| == 1
    ensures ScanUpTo(columns, |columns|)[0] == SteadyHistory(2, 10)
    ensures |ScanUpTo(columns, |columns|)[0]| == 10
  {
    MiddleCellDark();
    assert forall k :: 0 <= k < |columns| ==> EdgeRows(columns[k]) == [2];
    SingleLineScan(columns, 2, |columns|);
  }

  /** The dark cell of `[1, 0, 1]` is row 2. */
  lemma MiddleCellDark()
    ensures EdgeRows([1, 0, 1]) == [2]
  {
    var c3: seq<byte> := [1, 0, 1];
    var c2: seq<byte> := [1, 0];
    var c1: seq<byte> := [1];
    assert c3[..2] == c2 && c2[..1] == c1 && c1[..0] == [];
    assert EdgeRows(c1) == [];
    assert EdgeRows(c2) == [2];
  }
}
