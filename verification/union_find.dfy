/** A sparse union-find over 64-bit labels, kept as two maps: `parent` has an
    entry only for labels that were attached below another label (an absent
    entry means "is its own root"), and `rank` holds the union-by-rank bound
    (an absent entry means rank 0).

    This is the contract the merge relies on: `Find` returns a root, a root is
    its own root, and joining the roots of `a` and `b` puts `a` and `b` in one
    class while keeping every earlier class together.  The final partition
    does not depend on the order of the joins. */
module UnionFind {

  datatype UF = UF(parent: map<nat, nat>, rank: map<nat, nat>)

  const Empty: UF := UF(map[], map[])

  function Rank(uf: UF, x: nat): nat {
    if x in uf.rank then uf.rank[x] else 0
  }

  predicate IsRoot(uf: UF, x: nat) {
    x !in uf.parent || uf.parent[x] == x
  }

  /** Acyclicity: every proper parent link climbs strictly in rank. */
  ghost predicate Valid(uf: UF) {
    forall x :: x in uf.parent && uf.parent[x] != x ==> Rank(uf, x) < Rank(uf, uf.parent[x])
  }

  /** The labels with a parent entry that rank strictly above `x`; following a
      link never enlarges this set. */
  ghost function Above(uf: UF, x: nat): set<nat> {
    set k | k in uf.parent && Rank(uf, k) > Rank(uf, x)
  }

  lemma AboveShrinks(uf: UF, x: nat)
    requires Valid(uf) && !IsRoot(uf, x)
    ensures Above(uf, uf.parent[x]) <= Above(uf, x)
    ensures uf.parent[x] in uf.parent ==> Above(uf, uf.parent[x]) < Above(uf, x)
  {
    var p := uf.parent[x];
    if p in uf.parent {
      assert p in Above(uf, x) && p !in Above(uf, p);
    }
  }

  /** The representative of `x`: follow parent links until a root. */
  function Find(uf: UF, x: nat): (r: nat)
    requires Valid(uf)
    ensures IsRoot(uf, r)
    ensures Rank(uf, x) <= Rank(uf, r)
    ensures IsRoot(uf, x) ==> r == x
    decreases Above(uf, x), if x in uf.parent then 1 else 0
  {
    if IsRoot(uf, x) then x
    else
      AboveShrinks(uf, x);
      Find(uf, uf.parent[x])
  }

  predicate Same(uf: UF, x: nat, y: nat)
    requires Valid(uf)
  {
    Find(uf, x) == Find(uf, y)
  }

  /** A root is its own root, so finding twice is finding once. */
  lemma FindIdempotent(uf: UF, x: nat)
    requires Valid(uf)
    ensures Find(uf, Find(uf, x)) == Find(uf, x)
  {
  }

  /** Union by rank of two roots: the lower-rank root goes below the other. */
  function Join(uf: UF, ra: nat, rb: nat): (r: UF)
    requires Valid(uf) && IsRoot(uf, ra) && IsRoot(uf, rb)
    ensures Valid(r)
    ensures ra != rb ==> (r.parent == uf.parent[ra := rb] && IsRoot(r, rb))
                         || (r.parent == uf.parent[rb := ra] && IsRoot(r, ra))
    ensures ra == rb ==> r == uf
  {
    if ra == rb then uf
    else if Rank(uf, ra) < Rank(uf, rb) then UF(uf.parent[ra := rb], uf.rank)
    else if Rank(uf, rb) < Rank(uf, ra) then UF(uf.parent[rb := ra], uf.rank)
    else UF(uf.parent[rb := ra], uf.rank[ra := Rank(uf, ra) + 1])
  }

  /** The call pattern of the merge: `join(findRoot(a), findRoot(b))`. */
  function Union(uf: UF, a: nat, b: nat): (r: UF)
    requires Valid(uf)
    ensures Valid(r)
  {
    Join(uf, Find(uf, a), Find(uf, b))
  }

  /** Linking root `c` below root `w` redirects exactly the class of `c`. */
  lemma {:induction false} FindAfterLink(uf: UF, uf': UF, c: nat, w: nat, x: nat)
    requires Valid(uf) && Valid(uf')
    requires IsRoot(uf, c) && IsRoot(uf, w) && c != w
    requires uf'.parent == uf.parent[c := w]
    ensures Find(uf', x) == if Find(uf, x) == c then w else Find(uf, x)
    decreases Above(uf, x), if x in uf.parent then 1 else 0
  {
    assert IsRoot(uf', w);
    if IsRoot(uf, x) {
      if x == c {
        assert !IsRoot(uf', c);
        assert Find(uf', c) == Find(uf', w);
      } else {
        assert IsRoot(uf', x);
      }
    } else {
      AboveShrinks(uf, x);
      assert !IsRoot(uf', x) && uf'.parent[x] == uf.parent[x];
      FindAfterLink(uf, uf', c, w, uf.parent[x]);
    }
  }

  /** The effect of a union on the partition, both directions: afterwards `x`
      and `y` are together exactly when they were together before, or one was
      with `a` and the other with `b`. */
  lemma UnionEffect(uf: UF, a: nat, b: nat, x: nat, y: nat)
    requires Valid(uf)
    ensures Same(Union(uf, a, b), x, y)
            <==> Same(uf, x, y) || (Same(uf, x, a) && Same(uf, y, b)) || (Same(uf, x, b) && Same(uf, y, a))
  {
    var ra, rb := Find(uf, a), Find(uf, b);
    var u := Union(uf, a, b);
    if ra != rb {
      if u.parent == uf.parent[ra := rb] && IsRoot(u, rb) {
        FindAfterLink(uf, u, ra, rb, x);
        FindAfterLink(uf, u, ra, rb, y);
      } else {
        FindAfterLink(uf, u, rb, ra, x);
        FindAfterLink(uf, u, rb, ra, y);
      }
    }
  }

  /** After a union its two arguments share a root. */
  lemma UnionJoins(uf: UF, a: nat, b: nat)
    requires Valid(uf)
    ensures Same(Union(uf, a, b), a, b)
  {
    UnionEffect(uf, a, b, a, b);
  }

  /** Merges never unmerge. */
  lemma UnionMonotone(uf: UF, a: nat, b: nat, x: nat, y: nat)
    requires Valid(uf) && Same(uf, x, y)
    ensures Same(Union(uf, a, b), x, y)
  {
    UnionEffect(uf, a, b, x, y);
  }

  /** Folding a sequence of label pairs into the union-find, front to back. */
  function JoinAll(uf: UF, pairs: seq<(nat, nat)>): (r: UF)
    requires Valid(uf)
    ensures Valid(r)
    decreases |pairs|
  {
    if |pairs| == 0 then uf else JoinAll(Union(uf, pairs[0].0, pairs[0].1), pairs[1..])
  }

  lemma {:induction false} JoinAllMonotone(uf: UF, pairs: seq<(nat, nat)>, x: nat, y: nat)
    requires Valid(uf) && Same(uf, x, y)
    ensures Same(JoinAll(uf, pairs), x, y)
    decreases |pairs|
  {
    if |pairs| > 0 {
      UnionMonotone(uf, pairs[0].0, pairs[0].1, x, y);
      JoinAllMonotone(Union(uf, pairs[0].0, pairs[0].1), pairs[1..], x, y);
    }
  }

  /** Every folded pair ends up in one class. */
  lemma {:induction false} JoinAllJoinsEach(uf: UF, pairs: seq<(nat, nat)>, i: nat)
    requires Valid(uf) && i < |pairs|
    ensures Same(JoinAll(uf, pairs), pairs[i].0, pairs[i].1)
    decreases |pairs|
  {
    var u := Union(uf, pairs[0].0, pairs[0].1);
    if i == 0 {
      UnionJoins(uf, pairs[0].0, pairs[0].1);
      JoinAllMonotone(u, pairs[1..], pairs[0].0, pairs[0].1);
    } else {
      JoinAllJoinsEach(u, pairs[1..], i - 1);
    }
  }

  /** Folding a concatenation is folding one part after the other. */
  lemma {:induction false} JoinAllAppend(uf: UF, a: seq<(nat, nat)>, b: seq<(nat, nat)>)
    requires Valid(uf)
    ensures JoinAll(uf, a + b) == JoinAll(JoinAll(uf, a), b)
    decreases |a|
  {
    if |a| == 0 {
      assert a + b == b;
    } else {
      assert (a + b)[0] == a[0] && (a + b)[1..] == a[1..] + b;
      JoinAllAppend(Union(uf, a[0].0, a[0].1), a[1..], b);
    }
  }

  /** Every label the union-find mentions lies in `labels`. */
  predicate Within(uf: UF, labels: set<nat>) {
    forall k :: k in uf.parent ==> k in labels && uf.parent[k] in labels
  }

  lemma {:induction false} FindWithin(uf: UF, labels: set<nat>, x: nat)
    requires Valid(uf) && Within(uf, labels) && x in labels
    ensures Find(uf, x) in labels
    decreases Above(uf, x), if x in uf.parent then 1 else 0
  {
    if !IsRoot(uf, x) {
      AboveShrinks(uf, x);
      FindWithin(uf, labels, uf.parent[x]);
    }
  }

  /** Folding pairs drawn from `labels` never introduces any other label. */
  lemma {:induction false} JoinAllWithin(uf: UF, pairs: seq<(nat, nat)>, labels: set<nat>)
    requires Valid(uf) && Within(uf, labels)
    requires forall i :: 0 <= i < |pairs| ==> pairs[i].0 in labels && pairs[i].1 in labels
    ensures Within(JoinAll(uf, pairs), labels)
    decreases |pairs|
  {
    if |pairs| > 0 {
      FindWithin(uf, labels, pairs[0].0);
      FindWithin(uf, labels, pairs[0].1);
      JoinAllWithin(Union(uf, pairs[0].0, pairs[0].1), pairs[1..], labels);
    }
  }

  /** Two union-finds with the same partition. */
  ghost predicate Equiv(u1: UF, u2: UF)
    requires Valid(u1) && Valid(u2)
  {
    forall x: nat, y: nat :: Same(u1, x, y) <==> Same(u2, x, y)
  }

  lemma UnionCongruent(u1: UF, u2: UF, a: nat, b: nat)
    requires Valid(u1) && Valid(u2) && Equiv(u1, u2)
    ensures Equiv(Union(u1, a, b), Union(u2, a, b))
  {
    forall x: nat, y: nat
      ensures Same(Union(u1, a, b), x, y) <==> Same(Union(u2, a, b), x, y)
    {
      UnionEffect(u1, a, b, x, y);
      UnionEffect(u2, a, b, x, y);
    }
  }

  /** Two unions commute up to the partition they produce. */
  lemma UnionsCommute(u: UF, a: nat, b: nat, c: nat, d: nat)
    requires Valid(u)
    ensures Equiv(Union(Union(u, a, b), c, d), Union(Union(u, c, d), a, b))
  {
    var ab := Union(u, a, b);
    var cd := Union(u, c, d);
    forall x: nat, y: nat
      ensures Same(Union(ab, c, d), x, y) <==> Same(Union(cd, a, b), x, y)
    {
      UnionEffect(ab, c, d, x, y);
      UnionEffect(u, a, b, x, y);
      UnionEffect(u, a, b, x, c);
      UnionEffect(u, a, b, x, d);
      UnionEffect(u, a, b, y, c);
      UnionEffect(u, a, b, y, d);
      UnionEffect(cd, a, b, x, y);
      UnionEffect(u, c, d, x, y);
      UnionEffect(u, c, d, x, a);
      UnionEffect(u, c, d, x, b);
      UnionEffect(u, c, d, y, a);
      UnionEffect(u, c, d, y, b);
    }
  }

  lemma {:induction false} JoinAllCongruent(u1: UF, u2: UF, pairs: seq<(nat, nat)>)
    requires Valid(u1) && Valid(u2) && Equiv(u1, u2)
    ensures Equiv(JoinAll(u1, pairs), JoinAll(u2, pairs))
    decreases |pairs|
  {
    if |pairs| > 0 {
      UnionCongruent(u1, u2, pairs[0].0, pairs[0].1);
      JoinAllCongruent(Union(u1, pairs[0].0, pairs[0].1), Union(u2, pairs[0].0, pairs[0].1), pairs[1..]);
    }
  }

  /** Moving one pair to the front of the fold keeps the partition. */
  lemma {:induction false} MoveToFront(u: UF, t: seq<(nat, nat)>, p: (nat, nat), w: seq<(nat, nat)>)
    requires Valid(u)
    ensures Equiv(JoinAll(u, t + [p] + w), JoinAll(u, [p] + t + w))
    decreases |t|
  {
    if |t| == 0 {
      assert t + [p] + w == [p] + t + w;
    } else {
      var q := t[0];
      var t' := t[1..];
      var uq := Union(u, q.0, q.1);
      var up := Union(u, p.0, p.1);
      assert (t + [p] + w)[0] == q && (t + [p] + w)[1..] == t' + [p] + w;
      assert ([p] + t' + w)[0] == p && ([p] + t' + w)[1..] == t' + w;
      assert ([p] + t + w)[0] == p && ([p] + t + w)[1..] == [q] + t' + w;
      assert ([q] + t' + w)[0] == q && ([q] + t' + w)[1..] == t' + w;
      MoveToFront(uq, t', p, w);
      UnionsCommute(u, q.0, q.1, p.0, p.1);
      JoinAllCongruent(Union(uq, p.0, p.1), Union(up, q.0, q.1), t' + w);
    }
  }

  lemma EquivChain(u1: UF, u2: UF, u3: UF)
    requires Valid(u1) && Valid(u2) && Valid(u3)
    requires Equiv(u1, u2) && Equiv(u3, u2)
    ensures Equiv(u1, u3)
  {
    forall x: nat, y: nat
      ensures Same(u1, x, y) <==> Same(u3, x, y)
    {
      assert Same(u1, x, y) <==> Same(u2, x, y);
      assert Same(u3, x, y) <==> Same(u2, x, y);
    }
  }

  /** Taking the same element out of two permutations of each other leaves
      permutations of each other. */
  lemma RemoveMatching<T>(s1: seq<T>, s2: seq<T>, i: nat)
    requires multiset(s1) == multiset(s2) && 0 < |s1| && i < |s2| && s2[i] == s1[0]
    ensures s2 == s2[..i] + [s1[0]] + s2[i + 1..]
    ensures multiset(s1[1..]) == multiset(s2[..i] + s2[i + 1..])
  {
    var p := s1[0];
    assert s1 == [p] + s1[1..];
    assert s2 == s2[..i] + [p] + s2[i + 1..];
    assert s2[..i] + [p] + s2[i + 1..] == (s2[..i] + [p]) + s2[i + 1..];
    var a, b := multiset(s1[1..]), multiset(s2[..i] + s2[i + 1..]);
    assert multiset(s1) == a + multiset{p};
    assert multiset(s2) == b + multiset{p};
    assert a == a + multiset{p} - multiset{p};
    assert b == b + multiset{p} - multiset{p};
  }

  lemma JoinAllCons(u: UF, p: (nat, nat), rest: seq<(nat, nat)>)
    requires Valid(u)
    ensures JoinAll(u, [p] + rest) == JoinAll(Union(u, p.0, p.1), rest)
  {
    assert ([p] + rest)[0] == p && ([p] + rest)[1..] == rest;
  }

  /** Folding a list with `p` somewhere inside it gives the partition of
      joining `p` first and then the rest. */
  lemma PullOut(u: UF, t: seq<(nat, nat)>, p: (nat, nat), w: seq<(nat, nat)>)
    requires Valid(u)
    ensures Equiv(JoinAll(u, t + [p] + w), JoinAll(Union(u, p.0, p.1), t + w))
  {
    var front := JoinAll(u, [p] + t + w);
    MoveToFront(u, t, p, w);
    assert front == JoinAll(Union(u, p.0, p.1), t + w) by {
      assert [p] + t + w == [p] + (t + w);
      JoinAllCons(u, p, t + w);
    }
  }

  /** Order independence: folding any permutation of the same multiset of
      pairs yields the same partition. */
  lemma {:induction false} JoinAllPermutation(u: UF, s1: seq<(nat, nat)>, s2: seq<(nat, nat)>)
    requires Valid(u) && multiset(s1) == multiset(s2)
    ensures Equiv(JoinAll(u, s1), JoinAll(u, s2))
    decreases |s1|
  {
    if |s1| == 0 {
      assert |multiset(s2)| == 0;
      assert s1 == s2;
    } else {
      var p := s1[0];
      assert p in multiset(s2);
      var i :| 0 <= i < |s2| && s2[i] == p;
      var t, w := s2[..i], s2[i + 1..];
      RemoveMatching(s1, s2, i);
      var up := Union(u, p.0, p.1);
      var a, b, c := JoinAll(u, s1), JoinAll(up, t + w), JoinAll(u, s2);
      assert a == JoinAll(up, s1[1..]);
      JoinAllPermutation(up, s1[1..], t + w);
      PullOut(u, t, p, w);
      EquivChain(a, b, c);
    }
  }
}
