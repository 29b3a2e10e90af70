/** Global label ranges for independently segmented blocks.

    The coordinator gathers one `(block key, label count)` pair per block and
    hands out offsets as a running prefix sum; every worker then looks its own
    key up in the broadcast `(keys, values)` arrays and shifts every non-zero
    label of its block by that offset. */
module LabelOffsets {

  /** A block key is the block's minimum corner in voxel coordinates. */
  type Key = seq<int>

  /** Labels are unsigned 64-bit values. */
  const LabelLimit: nat := 0x1_0000_0000_0000_0000

  /** Sum of the label counts of `counts`: the coordinator's final `totalCount`. */
  function Total(counts: seq<(Key, nat)>): (r: nat)
    ensures r == 0 <==> forall i :: 0 <= i < |counts| ==> counts[i].1 == 0
  {
    assert forall i :: 0 <= i < |counts| - 1 ==> counts[..|counts| - 1][i] == counts[i];
    if |counts| == 0 then 0 else Total(counts[..|counts| - 1]) + counts[|counts| - 1].1
  }

  function KeysOf(counts: seq<(Key, nat)>): set<Key> {
    set i | 0 <= i < |counts| :: counts[i].0
  }

  /** Entry `i` is the last one with its key, so its `put` is the one that stays. */
  predicate LastOf(counts: seq<(Key, nat)>, i: int) {
    0 <= i < |counts| && forall j :: i < j < |counts| ==> counts[j].0 != counts[i].0
  }

  predicate DistinctKeys(counts: seq<(Key, nat)>) {
    forall i, j :: 0 <= i < j < |counts| ==> counts[i].0 != counts[j].0
  }

  /** The offset map: each block gets the running total of the counts before
      it; a repeated key keeps the offset of its last occurrence. */
  function AssignOffsets(counts: seq<(Key, nat)>): (offsets: map<Key, nat>)
    ensures offsets.Keys == KeysOf(counts)
    ensures forall i :: LastOf(counts, i) ==> offsets[counts[i].0] == Total(counts[..i])
  {
    if |counts| == 0 then map[]
    else
      var n := |counts| - 1;
      var prev := AssignOffsets(counts[..n]);
      var offsets := prev[counts[n].0 := Total(counts[..n])];
      AssignOffsetsStep(counts, prev, offsets);
      offsets
  }

  lemma AssignOffsetsStep(counts: seq<(Key, nat)>, prev: map<Key, nat>, offsets: map<Key, nat>)
    requires |counts| > 0
    requires var n := |counts| - 1;
             && prev.Keys == KeysOf(counts[..n])
             && (forall i :: LastOf(counts[..n], i) ==> prev[counts[..n][i].0] == Total(counts[..n][..i]))
             && offsets == prev[counts[n].0 := Total(counts[..n])]
    ensures offsets.Keys == KeysOf(counts)
    ensures forall i :: LastOf(counts, i) ==> offsets[counts[i].0] == Total(counts[..i])
  {
    var n := |counts| - 1;
    var pre := counts[..n];
    assert offsets.Keys == KeysOf(counts) by {
      KeysOfSnoc(counts);
      UpdateKeys(prev, counts[n].0, Total(pre));
    }
    forall i | LastOf(counts, i)
      ensures offsets[counts[i].0] == Total(counts[..i])
    {
      if i < n {
        LastOfPrefix(counts, i);
        assert LastOf(pre, i);
        assert prev[pre[i].0] == Total(pre[..i]);
      } else {
        assert i == n;
      }
    }
  }

  /** Storing under a key adds exactly that key to a map's domain. */
  lemma UpdateKeys(m: map<Key, nat>, k: Key, v: nat)
    ensures m[k := v].Keys == m.Keys + {k}
  {
  }

  /** The keys of a non-empty list are those of its prefix plus its last key. */
  lemma KeysOfSnoc(counts: seq<(Key, nat)>)
    requires |counts| > 0
    ensures KeysOf(counts) == KeysOf(counts[..|counts| - 1]) + {counts[|counts| - 1].0}
  {
    var n := |counts| - 1;
    forall k | k in KeysOf(counts) ensures k in KeysOf(counts[..n]) + {counts[n].0} {
      var i :| 0 <= i < |counts| && counts[i].0 == k;
      if i < n { assert counts[..n][i] == counts[i]; }
    }
    forall k | k in KeysOf(counts[..n]) ensures k in KeysOf(counts) {
      var i :| 0 <= i < n && counts[..n][i].0 == k;
      assert counts[i] == counts[..n][i];
    }
  }

  /** An entry that is last with its key, other than the final one, is also
      last in the list without the final entry, and its key differs from the
      final key. */
  lemma LastOfPrefix(counts: seq<(Key, nat)>, i: nat)
    requires i < |counts| - 1 && LastOf(counts, i)
    ensures var n := |counts| - 1;
            && LastOf(counts[..n], i) && counts[..n][i] == counts[i]
            && counts[..n][..i] == counts[..i] && counts[i].0 != counts[n].0
  {
  }

  lemma {:induction false} TotalMonotone(counts: seq<(Key, nat)>, i: nat, j: nat)
    requires i <= j <= |counts|
    ensures Total(counts[..i]) <= Total(counts[..j])
    decreases j
  {
    if i < j {
      assert counts[..j][..j - 1] == counts[..j - 1];
      TotalMonotone(counts, i, j - 1);
    }
  }

  lemma TotalStep(counts: seq<(Key, nat)>, i: nat)
    requires i < |counts|
    ensures Total(counts[..i + 1]) == Total(counts[..i]) + counts[i].1
  {
    assert counts[..i + 1][..i] == counts[..i];
  }

  /** With distinct keys the ranges `[offset, offset + count)` of two blocks
      never overlap. */
  lemma OffsetRangesDisjoint(counts: seq<(Key, nat)>, i: nat, j: nat)
    requires DistinctKeys(counts) && i < |counts| && j < |counts| && i != j
    ensures var offsets := AssignOffsets(counts);
            var oi, oj := offsets[counts[i].0], offsets[counts[j].0];
            oi + counts[i].1 <= oj || oj + counts[j].1 <= oi
  {
    assert LastOf(counts, i) && LastOf(counts, j);
    var offsets := AssignOffsets(counts);
    assert offsets[counts[i].0] == Total(counts[..i]);
    assert offsets[counts[j].0] == Total(counts[..j]);
    if i < j {
      TotalStep(counts, i);
      TotalMonotone(counts, i + 1, j);
    } else {
      TotalStep(counts, j);
      TotalMonotone(counts, j + 1, i);
    }
  }

  /** Together the ranges cover `[0, totalCount)`: every value below the total
      lies in the range of some block. */
  lemma {:induction false} OffsetRangesCover(counts: seq<(Key, nat)>, x: nat)
    requires x < Total(counts)
    ensures exists i :: 0 <= i < |counts| && Total(counts[..i]) <= x < Total(counts[..i]) + counts[i].1
    decreases |counts|
  {
    var n := |counts| - 1;
    assert counts[..n + 1] == counts;
    TotalStep(counts, n);
    if x < Total(counts[..n]) {
      OffsetRangesCover(counts[..n], x);
      var i :| 0 <= i < n && Total(counts[..n][..i]) <= x < Total(counts[..n][..i]) + counts[..n][i].1;
      assert counts[..n][..i] == counts[..i];
    } else {
      assert Total(counts[..n]) <= x < Total(counts[..n]) + counts[n].1;
    }
  }

  /** Each block's range ends by `totalCount`. */
  lemma OffsetRangeWithinTotal(counts: seq<(Key, nat)>, i: nat)
    requires DistinctKeys(counts) && i < |counts|
    ensures AssignOffsets(counts)[counts[i].0] + counts[i].1 <= Total(counts)
  {
    assert LastOf(counts, i);
    TotalStep(counts, i);
    TotalMonotone(counts, i + 1, |counts|);
    assert counts[..|counts|] == counts;
  }

  /** Each value below `totalCount` lies in the range of some block, stated
      over the offset map. */
  lemma OffsetsCoverTotal(counts: seq<(Key, nat)>, x: nat)
    requires DistinctKeys(counts) && x < Total(counts)
    ensures exists i :: 0 <= i < |counts|
              && AssignOffsets(counts)[counts[i].0] <= x < AssignOffsets(counts)[counts[i].0] + counts[i].1
  {
    OffsetRangesCover(counts, x);
    var i :| 0 <= i < |counts| && Total(counts[..i]) <= x < Total(counts[..i]) + counts[i].1;
    assert LastOf(counts, i);
  }

  /** The broadcast arrays list the entries of an offset map, one key each. */
  predicate Enumerates(keys: seq<Key>, vals: seq<nat>, offsets: map<Key, nat>) {
    && |keys| == |vals|
    && (forall i, j :: 0 <= i < j < |keys| ==> keys[i] != keys[j])
    && (forall i :: 0 <= i < |keys| ==> keys[i] in offsets && offsets[keys[i]] == vals[i])
    && (forall k :: k in offsets ==> k in keys)
  }

  datatype Lookup = Found(offset: nat) | NoOffset(key: Key)

  /** The worker's `offset` after scanning the first `n` broadcast entries:
      it starts at -1 and takes the value of every matching key. */
  function ScanOffset(key: Key, keys: seq<Key>, vals: seq<nat>, n: nat): (r: int)
    requires n <= |keys| == |vals|
    ensures r == -1 <==> key !in keys[..n]
    ensures r != -1 ==> exists i :: 0 <= i < n && keys[i] == key && vals[i] == r
                          && forall j :: i < j < n ==> keys[j] != key
  {
    if n == 0 then -1
    else
      assert keys[..n] == keys[..n - 1] + [keys[n - 1]];
      if keys[n - 1] == key then vals[n - 1] else ScanOffset(key, keys, vals, n - 1)
  }

  /** Offset lookup: fails when the key is missing, otherwise yields the value
      paired with the last matching key. */
  function LookupOffset(key: Key, keys: seq<Key>, vals: seq<nat>): (r: Lookup)
    requires |keys| == |vals|
    ensures r.NoOffset? <==> key !in keys
    ensures r.Found? ==> exists i :: 0 <= i < |keys| && keys[i] == key && vals[i] == r.offset
                           && forall j :: i < j < |keys| ==> keys[j] != key
  {
    assert keys[..|keys|] == keys;
    var offset := ScanOffset(key, keys, vals, |keys|);
    if offset == -1 then NoOffset(key) else Found(offset)
  }

  /** Looking a key up in the broadcast arrays agrees with the offset map. */
  lemma LookupAgreesWithMap(key: Key, keys: seq<Key>, vals: seq<nat>, offsets: map<Key, nat>)
    requires Enumerates(keys, vals, offsets)
    ensures LookupOffset(key, keys, vals) == if key in offsets then Found(offsets[key]) else NoOffset(key)
  {
    if key in offsets {
      var r := LookupOffset(key, keys, vals);
      assert r.Found?;
      var i :| 0 <= i < |keys| && keys[i] == key && vals[i] == r.offset;
    }
  }

  predicate FitsAfterOffset(block: seq<nat>, offset: nat) {
    forall i :: 0 <= i < |block| ==> block[i] + offset < LabelLimit
  }

  /** Shift every non-zero label by `offset`; background 0 stays 0. */
  function ApplyOffset(block: seq<nat>, offset: nat): (r: seq<nat>)
    requires FitsAfterOffset(block, offset)
    ensures |r| == |block|
    ensures forall i :: 0 <= i < |r| ==> (r[i] == 0 <==> block[i] == 0) && r[i] < LabelLimit
  {
    seq(|block|, i requires 0 <= i < |block| => if block[i] == 0 then 0 else block[i] + offset)
  }

  /** Undo a shift: the inverse of `ApplyOffset` for the same offset. */
  function RemoveOffset(block: seq<nat>, offset: nat): (r: seq<nat>)
    requires forall i :: 0 <= i < |block| ==> block[i] == 0 || block[i] > offset
    ensures |r| == |block|
    ensures forall i :: 0 <= i < |r| ==> (r[i] == 0 <==> block[i] == 0)
  {
    seq(|block|, i requires 0 <= i < |block| => if block[i] == 0 then 0 else block[i] - offset)
  }

  lemma ApplyOffsetRoundTrip(block: seq<nat>, offset: nat)
    requires FitsAfterOffset(block, offset)
    ensures RemoveOffset(ApplyOffset(block, offset), offset) == block
  {
  }

  lemma ApplyZeroOffset(block: seq<nat>)
    requires FitsAfterOffset(block, 0)
    ensures ApplyOffset(block, 0) == block
  {
  }

  /** Shifting twice shifts by the sum: a second application is not a no-op. */
  lemma ApplyOffsetTwice(block: seq<nat>, o1: nat, o2: nat)
    requires FitsAfterOffset(block, o1 + o2)
    ensures FitsAfterOffset(block, o1) && FitsAfterOffset(ApplyOffset(block, o1), o2)
    ensures ApplyOffset(ApplyOffset(block, o1), o2) == ApplyOffset(block, o1 + o2)
  {
  }

  lemma ApplyOffsetNotIdempotent(block: seq<nat>, offset: nat, i: nat)
    requires FitsAfterOffset(block, offset + offset)
    requires offset > 0 && i < |block| && block[i] != 0
    ensures FitsAfterOffset(ApplyOffset(block, offset), offset)
    ensures ApplyOffset(ApplyOffset(block, offset), offset) != ApplyOffset(block, offset)
  {
    ApplyOffsetTwice(block, offset, offset);
    assert ApplyOffset(block, offset + offset)[i] != ApplyOffset(block, offset)[i];
  }

  datatype Remapped = Remapped(labels: seq<nat>) | Missing(key: Key)

  /** A worker's remapping of its block: look the key up, fail when it is
      missing, otherwise shift every non-zero label. */
  function RemapBlock(key: Key, block: seq<nat>, keys: seq<Key>, vals: seq<nat>): (r: Remapped)
    requires |keys| == |vals|
    requires LookupOffset(key, keys, vals).Found? ==> FitsAfterOffset(block, LookupOffset(key, keys, vals).offset)
    ensures r.Missing? <==> key !in keys
    ensures r.Remapped? ==> exists i :: 0 <= i < |keys| && keys[i] == key
                              && (forall j :: i < j < |keys| ==> keys[j] != key)
                              && FitsAfterOffset(block, vals[i])
                              && r.labels == ApplyOffset(block, vals[i])
  {
    match LookupOffset(key, keys, vals)
    case NoOffset(k) => Missing(k)
    case Found(offset) => Remapped(ApplyOffset(block, offset))
  }

  /** Local labels of a block are `1..count`, with 0 as background. */
  predicate LocalLabels(block: seq<nat>, count: nat) {
    forall i :: 0 <= i < |block| ==> block[i] <= count
  }

  /** Global labels of two different blocks never collide: after the shift,
      block `i`'s non-zero labels lie in `(offset_i, offset_i + count_i]`, and
      those intervals are disjoint. */
  lemma GlobalLabelsDistinct(counts: seq<(Key, nat)>, i: nat, j: nat, bi: seq<nat>, bj: seq<nat>, p: nat, q: nat)
    requires DistinctKeys(counts) && i < |counts| && j < |counts| && i != j
    requires LocalLabels(bi, counts[i].1) && LocalLabels(bj, counts[j].1)
    requires p < |bi| && q < |bj| && bi[p] != 0 && bj[q] != 0
    requires FitsAfterOffset(bi, AssignOffsets(counts)[counts[i].0])
    requires FitsAfterOffset(bj, AssignOffsets(counts)[counts[j].0])
    ensures ApplyOffset(bi, AssignOffsets(counts)[counts[i].0])[p]
            != ApplyOffset(bj, AssignOffsets(counts)[counts[j].0])[q]
  {
    OffsetRangesDisjoint(counts, i, j);
  }
}
