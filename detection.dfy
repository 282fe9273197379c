/** `detect_staves` of `src/staves.rs` on `Staff` objects: the input
    buffer is cut into columns of `height` cells, and every column with
    dark cells is handled by `ScanColumn`, which feeds the matched cells to
    their staves in place and appends one new staff per run of unmatched
    cells. Both methods are proved to leave exactly the buffers that the
    value-level scan of module `Scanner` describes. */
module Detection {
  import opened Wrappers
  import opened Grouping
  import opened Matching
  import opened Tracking
  import opened Scanner

  // ---------------------------------------------------------------------
  // Columns
  // ---------------------------------------------------------------------

  function Min(a: nat, b: nat): nat
  {
    if a < b then a else b
  }

  /** `chunks(height)`: consecutive pieces of `height` cells, the last one
      shorter when the length is not a multiple of `height`. */
  function Chunks(buf: seq<byte>, height: nat): (r: seq<seq<byte>>)
    requires height > 0
    ensures forall i :: 0 <= i < |r| ==> 0 < |r[i]| <= height
    decreases |buf|
  {
    if |buf| == 0 then []
    else
      var k := Min(height, |buf|);
      [buf[..k]] + Chunks(buf[k..], height)
  }

  function Concat(r: seq<seq<byte>>): seq<byte>
  {
    if r == [] then [] else r[0] + Concat(r[1..])
  }

  /** The chunks put back together give the buffer, and every chunk but
      the last holds exactly `height` cells. */
  lemma {:induction false} ChunksCover(buf: seq<byte>, height: nat)
    requires height > 0
    ensures Concat(Chunks(buf, height)) == buf
    ensures forall i :: 0 <= i < |Chunks(buf, height)| - 1 ==> |Chunks(buf, height)[i]| == height
    decreases |buf|
  {
    if |buf| > 0 {
      var k := Min(height, |buf|);
      ChunksCover(buf[k..], height);
      var r, t := Chunks(buf, height), Chunks(buf[k..], height);
      assert r[1..] == t;
      if |buf| < height {
        assert t == [];
      }
      assert buf == buf[..k] + buf[k..];
    }
  }

  /** A buffer of two columns of three cells, and one whose last column is
      cut short. */
  lemma ChunksExample()
    ensures Chunks([1, 0, 1, 0, 0, 1], 3) == [[1, 0, 1], [0, 0, 1]]
    ensures Chunks([1, 0, 1, 0], 3) == [[1, 0, 1], [0]]
  {
    var b: seq<byte> := [1, 0, 1, 0, 0, 1];
    assert b[..3] == [1, 0, 1] && b[3..] == [0, 0, 1];
    assert b[3..][..3] == [0, 0, 1] && b[3..][3..] == [];
    assert Chunks(b[3..], 3) == [[0, 0, 1]] + Chunks([], 3);
    var c: seq<byte> := [1, 0, 1, 0];
    assert c[..3] == [1, 0, 1] && c[3..] == [0];
    assert c[3..][..1] == [0] && c[3..][1..] == [];
    assert Chunks(c[3..], 3) == [[0]] + Chunks([], 3);
  }

  // ---------------------------------------------------------------------
  // The staves as objects
  // ---------------------------------------------------------------------

  /** The buffers of the staves, in order. */
  ghost function Buffers(staves: seq<Staff>): (r: seq<seq<Entry>>)
    reads staves
    ensures |r| == |staves| && forall i :: 0 <= i < |staves| ==> r[i] == staves[i].buffer
  {
    seq(|staves|, i reads staves requires 0 <= i < |staves| => staves[i].buffer)
  }

  /** The list of staves the scan keeps: every staff is valid, and no
      staff object appears twice. */
  ghost predicate Registry(staves: seq<Staff>)
    reads staves
  {
    (forall i :: 0 <= i < |staves| ==> staves[i].Valid())
    && forall i, j :: 0 <= i < j < |staves| ==> staves[i] != staves[j]
  }

  /** `staff_predictions`: every staff's prediction for column `y`. */
  function Predictions(staves: seq<Staff>, y: nat): (r: seq<Prediction>)
    reads staves
    requires forall i :: 0 <= i < |staves| ==> |staves[i].buffer| > 0
    ensures |r| == |staves|
    ensures forall i :: 0 <= i < |staves| ==> r[i] == staves[i].GetPrediction(y)
  {
    seq(|staves|, i reads staves requires 0 <= i < |staves| && |staves[i].buffer| > 0 =>
      staves[i].GetPrediction(y))
  }

  /** The objects predict what their buffers predict. */
  lemma PredictionsAgree(staves: seq<Staff>, y: nat)
    requires Registry(staves)
    ensures Predictions(staves, y) == StatePredictions(Buffers(staves), y)
  {
    var p, q := Predictions(staves, y), StatePredictions(Buffers(staves), y);
    forall i | 0 <= i < |staves| ensures p[i] == q[i] {
      assert staves[i].Valid();
    }
  }

  /** Keys strictly ascend, so the key of group `g` is not among the keys
      of the groups before it. */
  lemma KeyNotBefore(groups: seq<(nat, seq<nat>)>, g: nat)
    requires g < |groups|
    requires forall a, b :: 0 <= a < b < |groups| ==> groups[a].0 < groups[b].0
    ensures groups[g].0 !in Keys(groups)[..g]
    ensures Keys(groups)[..g + 1] == Keys(groups)[..g] + [groups[g].0]
  {
    var ks := Keys(groups);
    assert forall a :: 0 <= a < g ==> ks[..g][a] < ks[g];
    assert ks[..g + 1] == ks[..g] + [ks[g]];
  }

  /** A key is the key of some group exactly when it carries a matched
      cell. */
  lemma GroupKeys(matched: seq<(nat, nat)>, groups: seq<(nat, seq<nat>)>, i: nat)
    requires IsGroupingOf(matched, groups)
    ensures i in Keys(groups) <==> HasKey(matched, i)
  {
    GroupKeysOccur(matched, groups);
    if HasKey(matched, i) {
      var g :| 0 <= g < |groups| && groups[g].0 == i;
      assert Keys(groups)[g] == i;
    }
  }

  /** Every staff that cells were matched to exists. */
  lemma GroupKeysBound(preds: seq<Prediction>, pixels: seq<nat>, y: nat, groups: seq<(nat, seq<nat>)>)
    requires IsGroupingOf(MatchedPairs(pixels, Matches(preds, pixels, y)), groups)
    ensures forall g :: 0 <= g < |groups| ==> groups[g].0 < |preds|
  {
    GroupKeysOccur(MatchedPairs(pixels, Matches(preds, pixels, y)), groups);
    forall g | 0 <= g < |groups| ensures groups[g].0 < |preds| {
      MatchedKeysBound(preds, pixels, y, groups[g].0);
    }
  }

  /** The buffers after one column, in terms of its matched pairs and its
      runs of unmatched cells. */
  lemma NextBuffersParts(bs: seq<seq<Entry>>, pixels: seq<nat>, y: nat, m: seq<Option<nat>>)
    requires Ready(bs, y) && m == MatchesOf(bs, pixels, y)
    ensures NextBuffers(bs, pixels, y) == Absorb(bs, MatchedPairs(pixels, m), y) + Spawn(Runs(Unmatched(pixels, m)), y)
  {
  }

  lemma BuffersConcat(a: seq<Staff>, b: seq<Staff>)
    ensures Buffers(a + b) == Buffers(a) + Buffers(b)
  {
    assert forall i :: 0 <= i < |a + b| ==> Buffers(a + b)[i] == (Buffers(a) + Buffers(b))[i];
  }

  /** The loop over `group_by_equal_value(matched_pixels)`: every staff
      with matched cells gets them pushed, in ascending staff order; the
      others are untouched. */
  method PushGroups(staves: seq<Staff>, matched: seq<(nat, nat)>, groups: seq<(nat, seq<nat>)>, y: nat)
    requires Registry(staves) && Ready(Buffers(staves), y)
    requires IsGroupingOf(matched, groups)
    requires forall g :: 0 <= g < |groups| ==> groups[g].0 < |staves|
    modifies staves
    ensures Registry(staves)
    ensures Buffers(staves) == Absorb(old(Buffers(staves)), matched, y)
  {
    ghost var b0 := Buffers(staves);
    ghost var ks := Keys(groups);
    var g := 0;
    while g < |groups|
      invariant 0 <= g <= |groups|
      invariant Registry(staves)
      invariant Buffers(staves) == Pushed(b0, matched, ks[..g], y)
    {
      var s, xs := groups[g].0, groups[g].1;
      KeyNotBefore(groups, g);
      assert |xs| > 0 && xs == Values(matched, s);
      ghost var before := Buffers(staves);
      assert before[s] == b0[s];
      PushOne(staves, s, xs, y);
      PushStep(b0, matched, groups, y, g, before, Buffers(staves));
      g := g + 1;
    }
    assert ks[..g] == ks;
    AbsorbAll(b0, matched, groups, y, Buffers(staves));
  }

  /** `staves[s].push_pixels(xs, y)` inside the list: only that staff's
      buffer grows, and the list stays a registry. */
  method PushOne(staves: seq<Staff>, s: nat, xs: seq<nat>, y: nat)
    requires Registry(staves) && s < |staves|
    requires |xs| > 0 && LastEntry(staves[s].buffer).column < y
    modifies staves[s]
    ensures Registry(staves)
    ensures Buffers(staves) == old(Buffers(staves))[s := old(staves[s].buffer) + [Entry(xs, y)]]
  {
    staves[s].PushPixels(xs, y);
    forall i | 0 <= i < |staves| && i != s ensures staves[i] != staves[s] {
      assert old(Registry(staves));
    }
  }

  /** The buffers once the staves whose indices are in `ks` got their
      matched cells. */
  ghost function Pushed(b0: seq<seq<Entry>>, matched: seq<(nat, nat)>, ks: seq<nat>, y: nat): (r: seq<seq<Entry>>)
    ensures |r| == |b0|
  {
    seq(|b0|, i requires 0 <= i < |b0| => if i in ks then b0[i] + [Entry(Values(matched, i), y)] else b0[i])
  }

  /** Pushing group `g` adds its entry to its own staff and to no other. */
  lemma PushStep(b0: seq<seq<Entry>>, matched: seq<(nat, nat)>, groups: seq<(nat, seq<nat>)>, y: nat, g: nat,
                 before: seq<seq<Entry>>, after: seq<seq<Entry>>)
    requires g < |groups| && groups[g].0 < |b0| && |after| == |b0|
    requires groups[g].0 !in Keys(groups)[..g]
    requires Keys(groups)[..g + 1] == Keys(groups)[..g] + [groups[g].0]
    requires groups[g].1 == Values(matched, groups[g].0)
    requires before == Pushed(b0, matched, Keys(groups)[..g], y)
    requires |before| == |b0| && after == before[groups[g].0 := before[groups[g].0] + [Entry(groups[g].1, y)]]
    ensures after == Pushed(b0, matched, Keys(groups)[..g + 1], y)
  {
    var p := Pushed(b0, matched, Keys(groups)[..g + 1], y);
    assert forall i :: 0 <= i < |b0| ==> after[i] == p[i];
  }

  /** Once every group is pushed, each staff whose index is a key got its
      matched cells, which is `Absorb`. */
  lemma AbsorbAll(b0: seq<seq<Entry>>, matched: seq<(nat, nat)>, groups: seq<(nat, seq<nat>)>, y: nat, bs: seq<seq<Entry>>)
    requires IsGroupingOf(matched, groups) && bs == Pushed(b0, matched, Keys(groups), y)
    ensures bs == Absorb(b0, matched, y)
  {
    forall i | 0 <= i < |b0| ensures bs[i] == Absorb(b0, matched, y)[i] {
      GroupKeys(matched, groups, i);
    }
  }

  /** The loop over `group_by_incremental_values(unmatched_pixels)`: one
      new staff per run, in order. */
  method NewStaves(runs: seq<seq<nat>>, y: nat) returns (created: seq<Staff>)
    requires NonEmptyGroups(runs)
    ensures Registry(created)
    ensures forall k :: 0 <= k < |created| ==> fresh(created[k])
    ensures Buffers(created) == Spawn(runs, y)
  {
    created := [];
    var j := 0;
    while j < |runs|
      invariant 0 <= j <= |runs| && |created| == j
      invariant forall k :: 0 <= k < |created| ==> fresh(created[k])
      invariant Registry(created)
      invariant Buffers(created) == Spawn(runs[..j], y)
    {
      ghost var before := created;
      created := StartStaff(created, runs[j], y);
      SpawnAppend(runs, j, y);
      forall k | 0 <= k < |created| ensures fresh(created[k]) {
        if k < |before| {
          assert created[k] == before[k];
        }
      }
      j := j + 1;
    }
    assert runs[..j] == runs;
  }

  lemma SpawnAppend(runs: seq<seq<nat>>, j: nat, y: nat)
    requires j < |runs|
    ensures Spawn(runs[..j + 1], y) == Spawn(runs[..j], y) + [[Entry(runs[j], y)]]
  {
    assert forall k :: 0 <= k < j ==> runs[..j + 1][k] == runs[..j][k];
  }

  /** `Staff::new(run, y)` pushed onto the list of staves. */
  method StartStaff(staves: seq<Staff>, xs: seq<nat>, y: nat) returns (next: seq<Staff>)
    requires Registry(staves) && |xs| > 0
    ensures Registry(next) && |next| == |staves| + 1 && fresh(next[|staves|])
    ensures forall k :: 0 <= k < |staves| ==> next[k] == staves[k]
    ensures Buffers(next) == Buffers(staves) + [[Entry(xs, y)]]
  {
    var staff := new Staff(xs, y);
    next := staves + [staff];
    BuffersConcat(staves, [staff]);
    assert Buffers([staff]) == [[Entry(xs, y)]];
  }

  /** The first half of a column: predict every staff, match every cell,
      and push each staff's matched cells in ascending staff order. The
      predictions are all taken before the first push. */
  method AbsorbColumn(staves: seq<Staff>, pixels: seq<nat>, y: nat) returns (matches: seq<Option<nat>>)
    requires Registry(staves) && Ready(Buffers(staves), y)
    modifies staves
    ensures Registry(staves)
    ensures matches == MatchesOf(old(Buffers(staves)), pixels, y)
    ensures Buffers(staves) == Absorb(old(Buffers(staves)), MatchedPairs(pixels, matches), y)
  {
    var preds := Predictions(staves, y);
    PredictionsAgree(staves, y);
    matches := Matches(preds, pixels, y);
    var matched := MatchedPairs(pixels, matches);
    var groups := GroupByEqualValue(matched);
    GroupKeysBound(preds, pixels, y, groups);
    PushGroups(staves, matched, groups, y);
  }

  /** One column with dark cells `pixels`, found in column `y`: predict
      every staff, match every cell, push each staff's matched cells in
      ascending staff order, then start a staff for every run of unmatched
      cells. The staves are changed in place and new ones are appended. */
  method ScanColumn(staves: seq<Staff>, pixels: seq<nat>, y: nat) returns (next: seq<Staff>)
    requires Registry(staves) && Ready(Buffers(staves), y)
    modifies staves
    ensures Registry(next)
    ensures |staves| <= |next| && forall i :: 0 <= i < |staves| ==> next[i] == staves[i]
    ensures forall j :: |staves| <= j < |next| ==> fresh(next[j])
    ensures Buffers(next) == NextBuffers(old(Buffers(staves)), pixels, y)
  {
    ghost var b0 := Buffers(staves);
    var matches := AbsorbColumn(staves, pixels, y);
    next := SpawnColumn(staves, Unmatched(pixels, matches), y);
    NextBuffersParts(b0, pixels, y, matches);
  }

  /** The second half of a column: one new staff for every run of the
      unmatched cells, appended after the existing staves. */
  method SpawnColumn(staves: seq<Staff>, unmatched: seq<nat>, y: nat) returns (next: seq<Staff>)
    requires Registry(staves)
    ensures Registry(next)
    ensures |staves| <= |next| && forall i :: 0 <= i < |staves| ==> next[i] == staves[i]
    ensures forall j :: |staves| <= j < |next| ==> fresh(next[j])
    ensures Buffers(next) == Buffers(staves) + Spawn(Runs(unmatched), y)
  {
    var runs := GroupByIncrementalValues(unmatched);
    RunsShape(unmatched);
    var created := NewStaves(runs, y);
    next := staves + created;
    BuffersConcat(staves, created);
  }

  /** `detect_staves(buffer, height)`: scans the columns in order, skips a
      column without dark cells and hands every other one, with its
      1-based index, to `ScanColumn`. */
  method DetectStaves(buffer: seq<byte>, height: nat) returns (staves: seq<Staff>)
    requires height > 0
    ensures Registry(staves)
    ensures forall i :: 0 <= i < |staves| ==> fresh(staves[i])
    ensures Buffers(staves) == ScanUpTo(Chunks(buffer, height), |Chunks(buffer, height)|)
  {
    var columns := Chunks(buffer, height);
    staves := [];
    for n := 0 to |columns|
      invariant Registry(staves)
      invariant forall i :: 0 <= i < |staves| ==> fresh(staves[i])
      invariant Buffers(staves) == ScanUpTo(columns, n)
    {
      ghost var before := staves;
      staves := ScanNth(staves, columns, n);
      forall i | 0 <= i < |staves| ensures fresh(staves[i]) {
        if i < |before| {
          assert staves[i] == before[i];
        }
      }
    }
  }

  /** The body of the column loop of `detect_staves` for the column at
      0-based index `n`: a column without dark cells is skipped. */
  method ScanNth(staves: seq<Staff>, columns: seq<seq<byte>>, n: nat) returns (next: seq<Staff>)
    requires n < |columns|
    requires Registry(staves) && Buffers(staves) == ScanUpTo(columns, n)
    modifies staves
    ensures Registry(next)
    ensures |staves| <= |next| && forall i :: 0 <= i < |staves| ==> next[i] == staves[i]
    ensures forall j :: |staves| <= j < |next| ==> fresh(next[j])
    ensures Buffers(next) == ScanUpTo(columns, n + 1)
  {
    var pixels := EdgeRows(columns[n]);
    if |pixels| == 0 {
      EmptyColumnSkipped(columns, n);
      return staves;
    }
    next := ScanDarkColumn(staves, columns, n);
  }

  lemma EmptyColumnSkipped(columns: seq<seq<byte>>, n: nat)
    requires n < |columns| && |EdgeRows(columns[n])| == 0
    ensures ScanUpTo(columns, n + 1) == ScanUpTo(columns, n)
  {
    ScanNext(columns, n);
  }

  /** A column with dark cells, handed to `ScanColumn` as column `n + 1`. */
  method ScanDarkColumn(staves: seq<Staff>, columns: seq<seq<byte>>, n: nat) returns (next: seq<Staff>)
    requires n < |columns| && |EdgeRows(columns[n])| > 0
    requires Registry(staves) && Buffers(staves) == ScanUpTo(columns, n)
    modifies staves
    ensures Registry(next)
    ensures |staves| <= |next| && forall i :: 0 <= i < |staves| ==> next[i] == staves[i]
    ensures forall j :: |staves| <= j < |next| ==> fresh(next[j])
    ensures Buffers(next) == ScanUpTo(columns, n + 1)
  {
    ScanNext(columns, n);
    ghost var b0 := ScanUpTo(columns, n);
    next := ScanColumn(staves, EdgeRows(columns[n]), n + 1);
    assert Buffers(next) == NextBuffers(b0, EdgeRows(columns[n]), n + 1);
  }
}
