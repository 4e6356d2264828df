/** The order in which the buffered variant joins tile pairs.  With n buffered left tiles
    and m right tiles the full schedule is right-major: every left tile 0..n-1 against
    right tile 0, then every left tile against right tile 1, and so on
    (nested_loop_join_executor.cpp, lines 100-167).  Step k of the schedule joins left
    tile k % n with right tile k / n.
 */
module PairSchedule {
  import opened JoinModel

  /** The tile pair joined at step k when n left tiles are buffered: (k % n, k / n),
      computed by counting off whole rounds of n steps. */
  function Pos(n: nat, k: nat): TilePair
    requires n > 0
    decreases k
  {
    if k < n then (k, 0) else (Pos(n, k - n).0, Pos(n, k - n).1 + 1)
  }

  /** Every left tile 0..n-1 against every right tile 0..m-1, right tile major. */
  function Sched(n: nat, m: nat): seq<TilePair>
  {
    if n == 0 then [] else seq(n * m, k requires 0 <= k < n * m => Pos(n, k))
  }

  /** `joined` is the first |joined| steps of the schedule for n left tiles. */
  predicate FollowsSchedule(n: nat, joined: seq<TilePair>)
    requires n > 0
  {
    forall k :: 0 <= k < |joined| ==> joined[k] == Pos(n, k)
  }

  lemma MulMonotone(n: nat, a: nat, b: nat)
    requires a <= b
    ensures n * a <= n * b
  {
  }

  /** Step k is round Pos(n, k).1, left tile Pos(n, k).0 of that round. */
  lemma {:induction false} PosInverse(n: nat, k: nat)
    requires n > 0
    ensures Pos(n, k).0 < n && k == n * Pos(n, k).1 + Pos(n, k).0
    decreases k
  {
    if k >= n {
      PosInverse(n, k - n);
      var (i, j) := Pos(n, k - n);
      assert n * (j + 1) == n * j + n;
    }
  }

  /** Pair (i, j) is joined at step n * j + i. */
  lemma {:induction false} PosOfPair(n: nat, i: nat, j: nat)
    requires i < n
    ensures Pos(n, n * j + i) == (i, j)
    decreases j
  {
    if j > 0 {
      assert n * j + i - n == n * (j - 1) + i;
      PosOfPair(n, i, j - 1);
    }
  }

  /** The step after (i, j) is (i + 1, j), or (0, j + 1) once the left tiles are used up. */
  lemma PosStep(n: nat, k: nat)
    requires n > 0
    ensures Pos(n, k + 1) == if Pos(n, k).0 + 1 < n then (Pos(n, k).0 + 1, Pos(n, k).1) else (0, Pos(n, k).1 + 1)
  {
    var (i, j) := Pos(n, k);
    PosInverse(n, k);
    if i + 1 < n {
      PosOfPair(n, i + 1, j);
    } else {
      assert k + 1 == n * (j + 1) + 0;
      PosOfPair(n, 0, j + 1);
    }
  }

  /** Joining the next step of the schedule keeps following it. */
  lemma FollowsSnoc(n: nat, joined: seq<TilePair>)
    requires n > 0 && FollowsSchedule(n, joined)
    ensures FollowsSchedule(n, joined + [Pos(n, |joined|)])
  {
  }

  /** While only right tile 0 has been joined, buffering more left tiles does not change
      the steps already taken. */
  lemma FollowsWiden(n: nat, n': nat, joined: seq<TilePair>)
    requires 0 < n <= n' && |joined| <= n && FollowsSchedule(n, joined)
    ensures FollowsSchedule(n', joined)
  {
    forall k | 0 <= k < |joined| ensures joined[k] == Pos(n', k) {
      PosOfPair(n, k, 0);
      PosOfPair(n', k, 0);
    }
  }

  /** Steps that end at (n - 1, m - 1) are the whole schedule for m right tiles. */
  lemma FollowsComplete(n: nat, m: nat, joined: seq<TilePair>)
    requires n > 0 && joined != [] && FollowsSchedule(n, joined)
    requires joined[|joined| - 1] == (n - 1, m - 1)
    ensures joined == Sched(n, m)
  {
    PosInverse(n, |joined| - 1);
    assert |joined| == n * m;
  }

  lemma SchedMembers(n: nat, m: nat, p: TilePair)
    ensures p in Sched(n, m) <==> p.0 < n && p.1 < m
  {
    if n > 0 {
      var s := Sched(n, m);
      if p in s {
        var k :| 0 <= k < |s| && s[k] == p;
        PosInverse(n, k);
        if p.1 >= m {
          MulMonotone(n, m, p.1);
        }
      }
      if p.0 < n && p.1 < m {
        var k := n * p.1 + p.0;
        assert k < n * m by { MulMonotone(n, p.1 + 1, m); }
        PosOfPair(n, p.0, p.1);
        assert s[k] == p;
      }
    }
  }

  /** Later steps come later in right-major order. */
  lemma PosOrdered(n: nat, a: nat, b: nat)
    requires n > 0 && a < b
    ensures RightMajorBefore(Pos(n, a), Pos(n, b))
  {
    PosInverse(n, a);
    PosInverse(n, b);
  }

  /** Pair schedule: over a full run every (left tile, right tile) pair is joined exactly
      once, in right-major order. */
  lemma ScheduleJoinsEachPairOnce(n: nat, m: nat)
    ensures |Sched(n, m)| == n * m
    ensures forall p :: p in Sched(n, m) <==> p.0 < n && p.1 < m
    ensures RightMajorOrdered(Sched(n, m))
    ensures forall a, b :: 0 <= a < b < |Sched(n, m)| ==> Sched(n, m)[a] != Sched(n, m)[b]
  {
    forall p ensures p in Sched(n, m) <==> p.0 < n && p.1 < m {
      SchedMembers(n, m, p);
    }
    var s := Sched(n, m);
    forall a, b | 0 <= a < b < |s| ensures RightMajorBefore(s[a], s[b]) {
      PosOrdered(n, a, b);
    }
    OrderedHasNoDuplicates(s);
  }
}
