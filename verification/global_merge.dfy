/** The coordinator's side of the merge and the final relabelling.

    Every block reports, per axis, the parent map of its local union-find as
    two parallel arrays; the coordinator joins each reported `(key, parent)`
    pair at the roots of one global union-find that lives across all axes.
    Finally every block replaces each non-zero label by its global root. */
module GlobalMerge {
  import opened UnionFind
  import opened FaceMatching
  import LabelOffsets

  /** `pairs` lists the entries of the parent map `m` (in hash-map order). */
  predicate ListsEntries(pairs: seq<(nat, nat)>, m: map<nat, nat>) {
    && (forall i :: 0 <= i < |pairs| ==> pairs[i].0 in m && m[pairs[i].0] == pairs[i].1)
    && (forall k :: k in m ==> (k, m[k]) in pairs)
  }

  /** All reports of all axes, in the order they are folded. */
  function Flatten(reports: seq<seq<(nat, nat)>>): seq<(nat, nat)> {
    if |reports| == 0 then [] else reports[0] + Flatten(reports[1..])
  }

  /** The coordinator's fold: each report in turn, each pair of it joined at
      the roots. */
  function FoldReports(uf: UF, reports: seq<seq<(nat, nat)>>): (r: UF)
    requires Valid(uf)
    ensures Valid(r)
    decreases |reports|
  {
    if |reports| == 0 then uf else FoldReports(JoinAll(uf, reports[0]), reports[1..])
  }

  /** The nested fold is one fold over all reported pairs. */
  lemma {:induction false} FoldReportsFlat(uf: UF, reports: seq<seq<(nat, nat)>>)
    requires Valid(uf)
    ensures FoldReports(uf, reports) == JoinAll(uf, Flatten(reports))
    decreases |reports|
  {
    if |reports| > 0 {
      FoldReportsFlat(JoinAll(uf, reports[0]), reports[1..]);
      JoinAllAppend(uf, reports[0], Flatten(reports[1..]));
    }
  }

  /** The global partition does not depend on the order in which the reports
      (or the pairs within them) arrive. */
  lemma FoldReportsOrderIndependent(uf: UF, r1: seq<seq<(nat, nat)>>, r2: seq<seq<(nat, nat)>>)
    requires Valid(uf) && multiset(Flatten(r1)) == multiset(Flatten(r2))
    ensures Equiv(FoldReports(uf, r1), FoldReports(uf, r2))
  {
    FoldReportsFlat(uf, r1);
    FoldReportsFlat(uf, r2);
    JoinAllPermutation(uf, Flatten(r1), Flatten(r2));
  }

  lemma {:induction false} FoldReportsMonotone(uf: UF, reports: seq<seq<(nat, nat)>>, x: nat, y: nat)
    requires Valid(uf) && Same(uf, x, y)
    ensures Same(FoldReports(uf, reports), x, y)
    decreases |reports|
  {
    if |reports| > 0 {
      JoinAllMonotone(uf, reports[0], x, y);
      FoldReportsMonotone(JoinAll(uf, reports[0]), reports[1..], x, y);
    }
  }

  /** After the fold every reported key shares a root with its reported parent. */
  lemma {:induction false} ReportedPairsJoined(uf: UF, reports: seq<seq<(nat, nat)>>, i: nat, j: nat)
    requires Valid(uf) && i < |reports| && j < |reports[i]|
    ensures Same(FoldReports(uf, reports), reports[i][j].0, reports[i][j].1)
    decreases |reports|
  {
    var next := JoinAll(uf, reports[0]);
    if i == 0 {
      JoinAllJoinsEach(uf, reports[0], j);
      FoldReportsMonotone(next, reports[1..], reports[0][j].0, reports[0][j].1);
    } else {
      ReportedPairsJoined(next, reports[1..], i - 1, j);
    }
  }

  /** Once every parent link of a local union-find is joined globally, each
      label shares its global root with its local root. */
  lemma {:induction false} LocalRootJoined(local: UF, g: UF, x: nat)
    requires Valid(local) && Valid(g)
    requires forall k :: k in local.parent ==> Same(g, k, local.parent[k])
    ensures Same(g, x, Find(local, x))
    decreases Above(local, x), if x in local.parent then 1 else 0
  {
    if !IsRoot(local, x) {
      AboveShrinks(local, x);
      LocalRootJoined(local, g, local.parent[x]);
    }
  }

  /** Local classes survive globally. */
  lemma LocalClassesSurvive(local: UF, g: UF, x: nat, y: nat)
    requires Valid(local) && Valid(g) && Same(local, x, y)
    requires forall k :: k in local.parent ==> Same(g, k, local.parent[k])
    ensures Same(g, x, y)
  {
    LocalRootJoined(local, g, x);
    LocalRootJoined(local, g, y);
  }

  /** End to end for one block pair along one axis: when the block's report is
      among those folded, every confirmed correspondence of its faces shares a
      root in the global union-find. */
  lemma ConfirmedMergedGlobally(cellPos: seq<int>, gridDims: seq<int>, d: nat,
                                upper: seq<nat>, lower: seq<nat>, order: seq<nat>,
                                uf: UF, reports: seq<seq<(nat, nat)>>, i: nat, k: nat)
    requires d < |cellPos| == |gridDims| && cellPos[d] + 1 < gridDims[d] && |upper| <= |lower|
    requires forall key :: key in Scan(Zip(upper, lower)).forward ==> key in order
    requires Valid(uf) && i < |reports|
    requires ListsEntries(reports[i], BlockReport(cellPos, gridDims, d, upper, lower, order))
    requires Confirmed(Scan(Zip(upper, lower)), k)
    ensures Same(FoldReports(uf, reports), k, Scan(Zip(upper, lower)).forward[k])
  {
    var s := Scan(Zip(upper, lower));
    var local := LocalJoins(s, order);
    var g := FoldReports(uf, reports);
    assert BlockReport(cellPos, gridDims, d, upper, lower, order) == local.parent;
    LocalJoinsConfirmed(s, order, k);
    forall key | key in local.parent ensures Same(g, key, local.parent[key]) {
      var j :| 0 <= j < |reports[i]| && reports[i][j] == (key, local.parent[key]);
      ReportedPairsJoined(uf, reports, i, j);
    }
    LocalClassesSurvive(local, g, k, s.forward[k]);
  }

  /** The final pass over one block: every non-zero label becomes its root. */
  function Relabel(block: seq<nat>, uf: UF): (r: seq<nat>)
    requires Valid(uf)
    ensures |r| == |block|
    ensures forall i :: 0 <= i < |r| && block[i] == 0 ==> r[i] == 0
    ensures forall i :: 0 <= i < |r| && block[i] != 0 ==> IsRoot(uf, r[i]) && Same(uf, block[i], r[i])
  {
    seq(|block|, i requires 0 <= i < |block| => if block[i] == 0 then 0 else Find(uf, block[i]))
  }

  /** Relabelling twice with the same union-find is relabelling once. */
  lemma RelabelIdempotent(block: seq<nat>, uf: UF)
    requires Valid(uf)
    ensures Relabel(Relabel(block, uf), uf) == Relabel(block, uf)
  {
  }

  /** Two labels of a block get the same final label exactly when they are in
      one class. */
  lemma RelabelRespectsClasses(block: seq<nat>, uf: UF, i: nat, j: nat)
    requires Valid(uf) && i < |block| && j < |block| && block[i] != 0 && block[j] != 0
    ensures Relabel(block, uf)[i] == Relabel(block, uf)[j] <==> Same(uf, block[i], block[j])
  {
  }

  /** When the union-find never mentions background, foreground stays
      foreground. */
  lemma RelabelKeepsForeground(block: seq<nat>, uf: UF, labels: set<nat>, i: nat)
    requires Valid(uf) && Within(uf, labels) && 0 !in labels && i < |block| && block[i] != 0
    ensures Relabel(block, uf)[i] != 0
  {
    if block[i] in labels {
      FindWithin(uf, labels, block[i]);
    }
  }

  /** The two-block scenario: blocks `[1, 1, 2, 2]` and `[1, 1, 2, 2]` with two
      labels each get offsets 0 and 2, so block 1 carries `[3, 3, 4, 4]`. */
  lemma ScenarioOffsets()
    ensures var counts: seq<(LabelOffsets.Key, nat)> := [([0], 2), ([4], 2)];
            && LabelOffsets.AssignOffsets(counts) == map[[0] := 0, [4] := 2]
            && LabelOffsets.ApplyOffset([1, 1, 2, 2], 0) == [1, 1, 2, 2]
            && LabelOffsets.ApplyOffset([1, 1, 2, 2], 2) == [3, 3, 4, 4]
  {
    var counts: seq<(LabelOffsets.Key, nat)> := [([0], 2), ([4], 2)];
    assert counts[..1] == [([0], 2)] && counts[..1][..0] == [] && counts[..0] == [];
    assert LabelOffsets.LastOf(counts, 0) && LabelOffsets.LastOf(counts, 1);
    assert LabelOffsets.Total(counts[..1]) == 2;
  }

  /** Continuing the scenario: block 0's segmentation labels the first voxel
      of block 1 (its upper plane along axis 0) with 2, facing block 1's
      label 3. Whatever order the report lists its entries in, after the
      merge both 2 and 3 resolve to one root and the other labels are
      untouched: the volume reads `[1, 1, r, r, r, r, 4, 4]` with `r` 2 or 3. */
  lemma ScenarioMerge(pairs: seq<(nat, nat)>)
    requires ListsEntries(pairs, BlockReport([0], [2], 0, [2], [3], [2]))
    ensures var g := FoldReports(Empty, [pairs]);
            var out := Relabel([1, 1, 2, 2], g) + Relabel([3, 3, 4, 4], g);
            && |out| == 8 && out[0] == out[1] == 1 && out[6] == out[7] == 4
            && out[2] == out[3] == out[4] == out[5]
            && (out[2] == 2 || out[2] == 3)
  {
    ScenarioJoined(pairs);
    ScenarioRelabel(FoldReports(Empty, [pairs]));
  }

  /** The face between the scenario's two blocks: one pair, confirmed both ways. */
  lemma ScenarioFace()
    ensures Scan(Zip([2], [3])) == Assignments(map[2 := 3], map[3 := 2])
    ensures FaceLabels(Zip([2], [3])) == {2, 3}
  {
    var ps := Zip([2], [3]);
    assert ps == [(2, 3)];
    assert |ps[..0]| == 0;
  }

  /** The scenario's merged forest joins 2 with 3 and mentions no other label. */
  lemma ScenarioJoined(pairs: seq<(nat, nat)>)
    requires ListsEntries(pairs, BlockReport([0], [2], 0, [2], [3], [2]))
    ensures var g := FoldReports(Empty, [pairs]);
            Valid(g) && Within(g, {2, 3}) && Same(g, 2, 3) && Find(g, 2) in {2, 3}
  {
    ScenarioPairLabels(pairs);
    ScenarioPairJoined(pairs);
    JoinedWithin(pairs);
  }

  /** A single report over the labels 2 and 3 that joins them yields a forest
      over those two labels whose root of 2 is one of them. */
  lemma JoinedWithin(pairs: seq<(nat, nat)>)
    requires forall i :: 0 <= i < |pairs| ==> pairs[i].0 in {2, 3} && pairs[i].1 in {2, 3}
    ensures var g := FoldReports(Empty, [pairs]);
            Valid(g) && Within(g, {2, 3}) && Find(g, 2) in {2, 3}
  {
    var g := FoldReports(Empty, [pairs]);
    FoldOneReport(Empty, pairs);
    JoinAllWithin(Empty, pairs, {2, 3});
    FindWithin(g, {2, 3}, 2);
  }

  /** Folding a single report is one loop of joins over it. */
  lemma FoldOneReport(uf: UF, pairs: seq<(nat, nat)>)
    requires Valid(uf)
    ensures FoldReports(uf, [pairs]) == JoinAll(uf, pairs)
  {
    assert [pairs][1..] == [];
    assert FoldReports(JoinAll(uf, pairs), []) == JoinAll(uf, pairs);
  }

  /** The scenario's confirmed pair `(2, 3)` is joined by the fold. */
  lemma ScenarioPairJoined(pairs: seq<(nat, nat)>)
    requires ListsEntries(pairs, BlockReport([0], [2], 0, [2], [3], [2]))
    ensures Same(FoldReports(Empty, [pairs]), 2, 3)
  {
    ScenarioFace();
    ConfirmedMergedGlobally([0], [2], 0, [2], [3], [2], Empty, [pairs], 0, 2);
  }

  /** The scenario's report mentions only the two facing labels. */
  lemma ScenarioPairLabels(pairs: seq<(nat, nat)>)
    requires ListsEntries(pairs, BlockReport([0], [2], 0, [2], [3], [2]))
    ensures forall i :: 0 <= i < |pairs| ==> pairs[i].0 in {2, 3} && pairs[i].1 in {2, 3}
  {
    ScenarioFace();
  }

  lemma ScenarioRelabel(g: UF)
    requires Valid(g) && Within(g, {2, 3}) && Same(g, 2, 3) && Find(g, 2) in {2, 3}
    ensures var out := Relabel([1, 1, 2, 2], g) + Relabel([3, 3, 4, 4], g);
            && |out| == 8 && out[0] == out[1] == 1 && out[6] == out[7] == 4
            && out[2] == out[3] == out[4] == out[5]
            && (out[2] == 2 || out[2] == 3)
  {
    assert IsRoot(g, 1) && IsRoot(g, 4);
    var b0, b1 := Relabel([1, 1, 2, 2], g), Relabel([3, 3, 4, 4], g);
    var out := b0 + b1;
    assert out[2] == b0[2] && out[4] == b1[0];
  }
}
