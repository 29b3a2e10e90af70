/** Matching the labels of two touching block faces.

    The upper plane of a block (its segmentation one voxel past its own end)
    and the lower plane of its neighbour (the neighbour's first slice) cover
    the same voxels. Scanning them position by position, the merger keeps a
    `forward` map (upper label to lower label) and a `backward` map (lower to
    upper), marks a conflict with -1, and finally joins every upper label whose
    forward partner points straight back to it.

    The rule is exactly the Java code's: a conflict is recorded only when both
    labels already have entries; otherwise the new pair overwrites. Labels are
    unsigned 64-bit values held in signed `long` maps, so the conflict mark -1
    is the same bit pattern as the largest label, and the model keeps that
    collision. */
module FaceMatching {
  import opened UnionFind
  import LabelOffsets

  /** The conflict mark -1, read as the unsigned 64-bit label it shares its
      bits with: 2^64 - 1. */
  const Invalid: nat := LabelOffsets.LabelLimit - 1

  datatype Assignments = Assignments(forward: map<nat, nat>, backward: map<nat, nat>)

  const NoAssignments := Assignments(map[], map[])

  /** A hash-map read: an absent key reads as 0. */
  function Get(m: map<nat, nat>, k: nat): nat {
    if k in m then m[k] else 0
  }

  /** Every entry of both maps is a foreground label, mapped to a foreground
      label or to the conflict mark (itself non-zero). */
  predicate WellFormed(s: Assignments) {
    && (forall k :: k in s.forward ==> k > 0 && s.forward[k] > 0)
    && (forall k :: k in s.backward ==> k > 0 && s.backward[k] > 0)
  }

  /** One position of the scan, with upper label `u` and lower label `l`. */
  function Step(s: Assignments, u: nat, l: nat): (r: Assignments)
    requires WellFormed(s)
    ensures WellFormed(r)
    ensures forall k :: k != u ==> Get(r.forward, k) == Get(s.forward, k) && (k in r.forward <==> k in s.forward)
    ensures forall k :: k != l ==> Get(r.backward, k) == Get(s.backward, k) && (k in r.backward <==> k in s.backward)
  {
    if u == 0 || l == 0 then s
    else if u in s.forward && l in s.backward then
      if s.forward[u] != l || s.backward[l] != u then
        Assignments(s.forward[u := Invalid], s.backward[l := Invalid])
      else s
    else Assignments(s.forward[u := l], s.backward[l := u])
  }

  /** The two planes, aligned position by position. */
  function Zip(upper: seq<nat>, lower: seq<nat>): seq<(nat, nat)>
    requires |upper| <= |lower|
  {
    seq(|upper|, i requires 0 <= i < |upper| => (upper[i], lower[i]))
  }

  /** The maps after scanning every position of `ps`, first to last. */
  function Scan(ps: seq<(nat, nat)>): (r: Assignments)
    ensures WellFormed(r)
  {
    if |ps| == 0 then NoAssignments
    else Step(Scan(ps[..|ps| - 1]), ps[|ps| - 1].0, ps[|ps| - 1].1)
  }

  /** `k` is confirmed: its forward partner is a label whose backward entry
      is `k` again. */
  predicate Confirmed(s: Assignments, k: nat) {
    k in s.forward && s.forward[k] != Invalid && Get(s.backward, s.forward[k]) == k
  }

  /** The positions where both planes carry a label. */
  function Foreground(ps: seq<(nat, nat)>): (r: seq<(nat, nat)>)
    ensures forall i :: 0 <= i < |r| ==> r[i].0 != 0 && r[i].1 != 0
    ensures forall i :: 0 <= i < |r| ==> r[i] in ps
    ensures forall i :: 0 <= i < |ps| && ps[i].0 != 0 && ps[i].1 != 0 ==> ps[i] in r
  {
    if |ps| == 0 then []
    else
      var init := Foreground(ps[..|ps| - 1]);
      var last := ps[|ps| - 1];
      assert forall i :: 0 <= i < |ps| - 1 ==> ps[i] == ps[..|ps| - 1][i];
      if last.0 != 0 && last.1 != 0 then init + [last] else init
  }

  /** Background positions are ignored: the scan of the foreground positions
      alone gives the same maps. */
  lemma {:induction false} ScanIgnoresBackground(ps: seq<(nat, nat)>)
    ensures Scan(Foreground(ps)) == Scan(ps)
  {
    if |ps| > 0 {
      var init := ps[..|ps| - 1];
      var last := ps[|ps| - 1];
      ScanIgnoresBackground(init);
      if last.0 != 0 && last.1 != 0 {
        var f := Foreground(init) + [last];
        assert f[..|f| - 1] == Foreground(init);
      }
    }
  }

  predicate Occurs(ps: seq<(nat, nat)>, u: nat, l: nat) {
    exists i :: 0 <= i < |ps| && ps[i] == (u, l)
  }

  /** Every map entry records a pair seen at some position: a forward entry
      `k -> v` (not a conflict) means `k` faced `v`, and likewise backward. */
  lemma {:induction false} EntriesCoOccur(ps: seq<(nat, nat)>)
    ensures forall k :: k in Scan(ps).forward && Scan(ps).forward[k] != Invalid ==> Occurs(ps, k, Scan(ps).forward[k])
    ensures forall l :: l in Scan(ps).backward && Scan(ps).backward[l] != Invalid ==> Occurs(ps, Scan(ps).backward[l], l)
  {
    if |ps| > 0 {
      var init := ps[..|ps| - 1];
      EntriesCoOccur(init);
      forall u: nat, l: nat | Occurs(init, u, l) ensures Occurs(ps, u, l) {
        var i :| 0 <= i < |init| && init[i] == (u, l);
        assert ps[i] == (u, l);
      }
      assert ps[|ps| - 1] == (ps[|ps| - 1].0, ps[|ps| - 1].1);
    }
  }

  /** A confirmed upper label faced its partner at some position. */
  lemma ConfirmedCoOccur(ps: seq<(nat, nat)>, k: nat)
    requires Confirmed(Scan(ps), k)
    ensures k > 0 && Scan(ps).forward[k] > 0
    ensures Occurs(ps, k, Scan(ps).forward[k])
  {
    EntriesCoOccur(ps);
  }

  /** Confirmed pairs are one-to-one: two upper labels never share a partner. */
  lemma ConfirmedOneToOne(s: Assignments, k1: nat, k2: nat)
    requires Confirmed(s, k1) && Confirmed(s, k2) && s.forward[k1] == s.forward[k2]
    ensures k1 == k2
  {
  }

  /** When `u` only ever faces `l` and `l` only ever faces `u` (positions with
      background aside), and they face each other at least once, `u` ends up
      mapped to `l`; it is confirmed exactly when `l` is not the largest label,
      whose bits read as the conflict mark. */
  lemma ExclusivePartnersConfirmed(ps: seq<(nat, nat)>, u: nat, l: nat)
    requires u != 0 && l != 0 && Occurs(ps, u, l)
    requires forall i :: 0 <= i < |ps| && ps[i].0 == u && ps[i].1 != 0 ==> ps[i].1 == l
    requires forall i :: 0 <= i < |ps| && ps[i].1 == l && ps[i].0 != 0 ==> ps[i].0 == u
    ensures u in Scan(ps).forward && Scan(ps).forward[u] == l
    ensures Confirmed(Scan(ps), u) <==> l != Invalid
  {
    ExclusivePrefix(ps, u, l, |ps|);
    assert ps[..|ps|] == ps;
  }

  lemma OccursPrefix(ps: seq<(nat, nat)>, u: nat, l: nat, n: nat)
    requires 0 < n <= |ps|
    ensures Occurs(ps[..n], u, l) <==> Occurs(ps[..n - 1], u, l) || ps[n - 1] == (u, l)
  {
    if Occurs(ps[..n], u, l) {
      var i :| 0 <= i < n && ps[..n][i] == (u, l);
      if i < n - 1 { assert ps[..n - 1][i] == (u, l); }
    }
    if Occurs(ps[..n - 1], u, l) {
      var i :| 0 <= i < n - 1 && ps[..n - 1][i] == (u, l);
      assert ps[..n][i] == (u, l);
    }
    if ps[n - 1] == (u, l) {
      assert ps[..n][n - 1] == (u, l);
    }
  }

  lemma {:induction false} ExclusivePrefix(ps: seq<(nat, nat)>, u: nat, l: nat, n: nat)
    requires u != 0 && l != 0 && n <= |ps|
    requires forall i :: 0 <= i < |ps| && ps[i].0 == u && ps[i].1 != 0 ==> ps[i].1 == l
    requires forall i :: 0 <= i < |ps| && ps[i].1 == l && ps[i].0 != 0 ==> ps[i].0 == u
    ensures var s := Scan(ps[..n]);
            if Occurs(ps[..n], u, l) then
              u in s.forward && s.forward[u] == l && l in s.backward && s.backward[l] == u
            else u !in s.forward && l !in s.backward
  {
    if n == 0 {
      assert |ps[..0]| == 0;
    } else {
      ExclusivePrefix(ps, u, l, n - 1);
      OccursPrefix(ps, u, l, n);
      assert ps[..n][..n - 1] == ps[..n - 1];
      assert ps[..n][n - 1] == ps[n - 1];
      var prev := Scan(ps[..n - 1]);
      assert Scan(ps[..n]) == Step(prev, ps[n - 1].0, ps[n - 1].1);
    }
  }

  /** Upper `[a, b, a]` against lower `[c, d, d]`: `a` meets `d` after both
      already have entries, so both are marked and, for ordinary labels,
      nothing is confirmed. The one exception is the bit-pattern collision:
      when `b` is the largest label, `d`'s conflict mark reads as `b` and `b`
      is confirmed with `d`. */
  lemma ConflictExample(a: nat, b: nat, c: nat, d: nat)
    requires a != 0 && b != 0 && c != 0 && d != 0 && a != b && c != d
    ensures Scan([(a, c), (b, d), (a, d)]).forward[a] == Invalid
    ensures Scan([(a, c), (b, d), (a, d)]).backward[d] == Invalid
    ensures forall k :: Confirmed(Scan([(a, c), (b, d), (a, d)]), k)
                        <==> k == b && b == Invalid && d != Invalid
  {
    ConflictScan(a, b, c, d);
    var s := Assignments(map[a := Invalid, b := d], map[c := a, d := Invalid]);
    forall k ensures Confirmed(s, k) <==> k == b && b == Invalid && d != Invalid {
      if k == b {
        assert s.forward[b] == d;
        if d != Invalid { assert Get(s.backward, d) == Invalid; }
      }
    }
  }

  /** The maps after scanning upper `[a, b, a]` against lower `[c, d, d]`. */
  lemma ConflictScan(a: nat, b: nat, c: nat, d: nat)
    requires a != 0 && b != 0 && c != 0 && d != 0 && a != b && c != d
    ensures Scan([(a, c), (b, d), (a, d)])
            == Assignments(map[a := Invalid, b := d], map[c := a, d := Invalid])
  {
    var p1: seq<(nat, nat)> := [(a, c)];
    var p2 := p1 + [(b, d)];
    var p3 := p2 + [(a, d)];
    assert p3 == [(a, c), (b, d), (a, d)];
    ScanSnoc([], (a, c));
    assert [] + [(a, c)] == p1;
    ScanSnoc(p1, (b, d));
    ScanSnoc(p2, (a, d));
    ConflictSteps(a, b, c, d);
  }

  /** Scanning one more position is one more `Step`. */
  lemma ScanSnoc(ps: seq<(nat, nat)>, p: (nat, nat))
    ensures Scan(ps + [p]) == Step(Scan(ps), p.0, p.1)
  {
    assert (ps + [p])[..|ps|] == ps;
  }

  /** The three steps of the conflict walk: the third meets two mapped labels
      that are not mapped to each other. */
  lemma ConflictSteps(a: nat, b: nat, c: nat, d: nat)
    requires a != 0 && b != 0 && c != 0 && d != 0 && a != b && c != d
    ensures Step(Step(Step(NoAssignments, a, c), b, d), a, d)
            == Assignments(map[a := Invalid, b := d], map[c := a, d := Invalid])
  {
    var s2 := Step(Step(NoAssignments, a, c), b, d);
    StoredSteps(a, b, c, d);
    StepMarks(s2, a, d);
    assert s2.forward[a := Invalid] == map[a := Invalid, b := d];
    assert s2.backward[d := Invalid] == map[c := a, d := Invalid];
  }

  /** The first two steps of the conflict walk store both pairs. */
  lemma StoredSteps(a: nat, b: nat, c: nat, d: nat)
    requires a != 0 && b != 0 && c != 0 && d != 0 && a != b && c != d
    ensures Step(Step(NoAssignments, a, c), b, d)
            == Assignments(map[a := c, b := d], map[c := a, d := b])
  {
    var s1 := Step(NoAssignments, a, c);
    StepStores(NoAssignments, a, c);
    StepStores(s1, b, d);
  }

  /** A foreground pair of which at least one side is still unmapped is stored
      in both maps. */
  lemma StepStores(s: Assignments, u: nat, l: nat)
    requires WellFormed(s) && u != 0 && l != 0 && !(u in s.forward && l in s.backward)
    ensures Step(s, u, l) == Assignments(s.forward[u := l], s.backward[l := u])
  {
  }

  /** A foreground pair whose sides are both mapped, but not to each other,
      marks both sides as conflicts. */
  lemma StepMarks(s: Assignments, u: nat, l: nat)
    requires WellFormed(s) && u != 0 && l != 0 && u in s.forward && l in s.backward
    requires s.forward[u] != l || s.backward[l] != u
    ensures Step(s, u, l) == Assignments(s.forward[u := Invalid], s.backward[l := Invalid])
  {
  }

  /** A block facing the largest label: the pair is stored, but the forward
      entry reads as the conflict mark, so no join is ever emitted. */
  lemma MaxLabelNeverJoined(u: nat, order: seq<nat>)
    requires u != 0
    ensures Scan([(u, Invalid)]).forward == map[u := Invalid]
    ensures forall k :: !Confirmed(Scan([(u, Invalid)]), k)
    ensures ConfirmedPairs(Scan([(u, Invalid)]), order) == []
  {
    var p: seq<(nat, nat)> := [(u, Invalid)];
    assert p[..0] == [];
    var s := Step(NoAssignments, u, Invalid);
    assert Scan(p) == s;
    assert s.forward == map[u := Invalid];
  }

  /** Upper `[a, a]` against lower `[b, c]`: `c` has no backward entry yet, so
      the second pair overwrites instead of conflicting and `a` ends up
      confirmed with `c`, although it faced two different labels (unless `c`
      is the largest label, whose bits read as the conflict mark). */
  lemma OverwriteExample(a: nat, b: nat, c: nat)
    requires a != 0 && b != 0 && c != 0 && b != c
    ensures a in Scan([(a, b), (a, c)]).forward && Scan([(a, b), (a, c)]).forward[a] == c
    ensures Confirmed(Scan([(a, b), (a, c)]), a) <==> c != Invalid
  {
    var p1: seq<(nat, nat)> := [(a, b)];
    var p2 := p1 + [(a, c)];
    assert p1[..0] == [] && p2[..1] == p1;
    var s1 := Step(NoAssignments, a, b);
    var s2 := Step(s1, a, c);
    assert Scan(p1) == s1 && Scan(p2) == s2;
    assert s2.forward == map[a := c] && s2.backward == map[b := a, c := a];
    assert p2 == [(a, b), (a, c)];
  }

  /** The confirmed pairs in the order the forward map is walked; `order` is
      that walk (a hash-map order the program does not fix). */
  function ConfirmedPairs(s: Assignments, order: seq<nat>): (r: seq<(nat, nat)>)
    requires WellFormed(s)
    ensures forall i :: 0 <= i < |r| ==> Confirmed(s, r[i].0) && s.forward[r[i].0] == r[i].1
    ensures forall i :: 0 <= i < |order| && Confirmed(s, order[i]) ==>
              (order[i], s.forward[order[i]]) in r
  {
    if |order| == 0 then []
    else
      var init := ConfirmedPairs(s, order[..|order| - 1]);
      var k := order[|order| - 1];
      assert forall i :: 0 <= i < |order| - 1 ==> order[i] == order[..|order| - 1][i];
      if Confirmed(s, k) then init + [(k, s.forward[k])] else init
  }

  /** Walking the keys in two parts collects the pairs of each part in turn. */
  lemma {:induction false} ConfirmedPairsAppend(s: Assignments, a: seq<nat>, b: seq<nat>)
    requires WellFormed(s)
    ensures ConfirmedPairs(s, a + b) == ConfirmedPairs(s, a) + ConfirmedPairs(s, b)
    decreases |b|
  {
    if |b| == 0 {
      assert a + b == a;
    } else {
      var b' := b[..|b| - 1];
      assert (a + b)[..|a + b| - 1] == a + b';
      assert (a + b)[|a + b| - 1] == b[|b| - 1];
      ConfirmedPairsAppend(s, a, b');
    }
  }

  /** Two walks over the same keys collect the same pairs, up to order. */
  lemma {:induction false} ConfirmedPairsPermutation(s: Assignments, o1: seq<nat>, o2: seq<nat>)
    requires WellFormed(s) && multiset(o1) == multiset(o2)
    ensures multiset(ConfirmedPairs(s, o1)) == multiset(ConfirmedPairs(s, o2))
    decreases |o1|
  {
    if |o1| == 0 {
      assert |multiset(o2)| == 0;
    } else {
      var x := o1[0];
      assert x in multiset(o2) by { assert x in multiset(o1); }
      var i :| 0 <= i < |o2| && o2[i] == x;
      RemoveMatching(o1, o2, i);
      var a, b := o2[..i], o2[i + 1..];
      ConfirmedPairsPermutation(s, o1[1..], a + b);
      ConfirmedPairsSplit(s, o1, a, b);
    }
  }

  /** The bookkeeping step of `ConfirmedPairsPermutation`: once the walk
      without its first key and the walk `a + b` collect the same pairs up to
      order, so do the whole walk and `a + [o1[0]] + b`. */
  lemma ConfirmedPairsSplit(s: Assignments, o1: seq<nat>, a: seq<nat>, b: seq<nat>)
    requires WellFormed(s) && |o1| > 0
    requires multiset(ConfirmedPairs(s, o1[1..])) == multiset(ConfirmedPairs(s, a + b))
    ensures multiset(ConfirmedPairs(s, o1)) == multiset(ConfirmedPairs(s, a + [o1[0]] + b))
  {
    var x := o1[0];
    var c1, cx, ca, cb := ConfirmedPairs(s, o1[1..]), ConfirmedPairs(s, [x]), ConfirmedPairs(s, a), ConfirmedPairs(s, b);
    assert ConfirmedPairs(s, o1) == cx + c1 by {
      assert o1 == [x] + o1[1..];
      ConfirmedPairsAppend(s, [x], o1[1..]);
    }
    assert ConfirmedPairs(s, a + [x] + b) == ca + cx + cb by {
      ConfirmedPairsAppend(s, a + [x], b);
      ConfirmedPairsAppend(s, a, [x]);
    }
    ConfirmedPairsAppend(s, a, b);
    MultisetRearrange(c1, cx, ca, cb);
  }

  lemma MultisetRearrange(c1: seq<(nat, nat)>, cx: seq<(nat, nat)>, ca: seq<(nat, nat)>, cb: seq<(nat, nat)>)
    requires multiset(c1) == multiset(ca) + multiset(cb)
    ensures multiset(cx + c1) == multiset(ca + cx + cb)
  {
  }

  /** The block's local union-find: every confirmed pair joined at the roots. */
  function LocalJoins(s: Assignments, order: seq<nat>): (uf: UF)
    requires WellFormed(s)
    ensures Valid(uf)
  {
    JoinAll(Empty, ConfirmedPairs(s, order))
  }

  /** The local partition does not depend on the order the forward map is
      walked in. */
  lemma LocalJoinsOrderIndependent(s: Assignments, o1: seq<nat>, o2: seq<nat>)
    requires WellFormed(s) && multiset(o1) == multiset(o2)
    ensures Equiv(LocalJoins(s, o1), LocalJoins(s, o2))
  {
    ConfirmedPairsPermutation(s, o1, o2);
    JoinAllPermutation(Empty, ConfirmedPairs(s, o1), ConfirmedPairs(s, o2));
  }

  /** When the walk visits every forward key, every confirmed pair shares a
      root in the local union-find. */
  lemma LocalJoinsConfirmed(s: Assignments, order: seq<nat>, k: nat)
    requires WellFormed(s) && Confirmed(s, k)
    requires forall key :: key in s.forward ==> key in order
    ensures Same(LocalJoins(s, order), k, s.forward[k])
  {
    var pairs := ConfirmedPairs(s, order);
    var i :| 0 <= i < |order| && order[i] == k;
    var j :| 0 <= j < |pairs| && pairs[j] == (k, s.forward[k]);
    JoinAllJoinsEach(Empty, pairs, j);
  }

  /** Exclusive partners on a face end up in one class of the local
      union-find (unless the partner is the largest label, see
      `MaxLabelNeverJoined`). */
  lemma ExclusivePartnersJoined(ps: seq<(nat, nat)>, u: nat, l: nat, order: seq<nat>)
    requires u != 0 && l != 0 && l != Invalid && Occurs(ps, u, l)
    requires forall i :: 0 <= i < |ps| && ps[i].0 == u && ps[i].1 != 0 ==> ps[i].1 == l
    requires forall i :: 0 <= i < |ps| && ps[i].1 == l && ps[i].0 != 0 ==> ps[i].0 == u
    requires forall key :: key in Scan(ps).forward ==> key in order
    ensures Same(LocalJoins(Scan(ps), order), u, l)
  {
    ExclusivePartnersConfirmed(ps, u, l);
    LocalJoinsConfirmed(Scan(ps), order, u);
  }

  /** The labels that appear, with a partner, on the two planes. */
  function FaceLabels(ps: seq<(nat, nat)>): set<nat> {
    (set i | 0 <= i < |ps| && ps[i].0 != 0 && ps[i].1 != 0 :: ps[i].0)
    + (set i | 0 <= i < |ps| && ps[i].0 != 0 && ps[i].1 != 0 :: ps[i].1)
  }

  /** What one block reports for axis `d` (the parent map of its local
      union-find): nothing when it has no neighbour along `d`, otherwise the
      joins of the confirmed pairs between its upper plane and the
      neighbour's lower plane. */
  function BlockReport(cellPos: seq<int>, gridDims: seq<int>, d: nat,
                       upper: seq<nat>, lower: seq<nat>, order: seq<nat>): (r: map<nat, nat>)
    requires d < |cellPos| == |gridDims|
    requires cellPos[d] + 1 < gridDims[d] ==> |upper| <= |lower|
    ensures cellPos[d] + 1 >= gridDims[d] ==> r == map[]
    ensures cellPos[d] + 1 < gridDims[d] ==>
              forall k :: k in r ==> k in FaceLabels(Zip(upper, lower)) && r[k] in FaceLabels(Zip(upper, lower))
  {
    if cellPos[d] + 1 < gridDims[d] then
      var ps := Zip(upper, lower);
      var s := Scan(ps);
      var pairs := ConfirmedPairs(s, order);
      var labels := FaceLabels(ps);
      forall i | 0 <= i < |pairs| ensures pairs[i].0 in labels && pairs[i].1 in labels {
        ConfirmedCoOccur(ps, pairs[i].0);
        var j :| 0 <= j < |ps| && ps[j] == (pairs[i].0, pairs[i].1);
      }
      JoinAllWithin(Empty, pairs, labels);
      LocalJoins(s, order).parent
    else map[]
  }
}
