/** The pairwise matcher shared by both execution variants: for one (left tile, right
    tile) pair it walks the right rows in the outer loop and the left rows in the inner
    loop, keeps every pair whose predicate result is not False, and records matched rows
    for outer-join completion (nested_loop_join_executor.cpp, lines 173-208 and 355-390).
 */
module PairwiseMatcher {
  import opened JoinModel

  /** The pairs contributed by one right row `r`: the left rows of `left` that pass
      against `r`, in left-tile order.  Defined from the end so that it follows the
      order in which the inner loop appends. */
  function RowMatches(pred: Option<JoinPredicate>, li: nat, left: Tile, ri: nat, r: RowId): seq<RowPair>
    decreases |left|
  {
    if left == [] then []
    else
      var l := left[|left| - 1];
      RowMatches(pred, li, left[..|left| - 1], ri, r) + (if Passes(pred, li, l, ri, r) then [(l, r)] else [])
  }

  /** The position list the matcher builds for left tile `li` against right tile `ri`:
      the right rows form the outer loop, the left rows the inner one. */
  function JoinPairs(pred: Option<JoinPredicate>, li: nat, left: Tile, ri: nat, right: Tile): seq<RowPair>
    decreases |right|
  {
    if right == [] then []
    else JoinPairs(pred, li, left, ri, right[..|right| - 1]) + RowMatches(pred, li, left, ri, right[|right| - 1])
  }

  /** What RecordMatchedLeftRow records for a position list: the left row of every pair. */
  function LeftMarks(li: nat, pairs: seq<RowPair>): set<MatchedRow>
  {
    set p | p in pairs :: (li, p.0)
  }

  /** What RecordMatchedRightRow records for a position list: the right row of every pair. */
  function RightMarks(ri: nat, pairs: seq<RowPair>): set<MatchedRow>
  {
    set p | p in pairs :: (ri, p.1)
  }

  lemma LeftMarksConcat(li: nat, s: seq<RowPair>, t: seq<RowPair>)
    ensures LeftMarks(li, s + t) == LeftMarks(li, s) + LeftMarks(li, t)
  {
    assert forall p :: p in s + t <==> p in s || p in t;
  }

  lemma RightMarksConcat(ri: nat, s: seq<RowPair>, t: seq<RowPair>)
    ensures RightMarks(ri, s + t) == RightMarks(ri, s) + RightMarks(ri, t)
  {
    assert forall p :: p in s + t <==> p in s || p in t;
  }

  /** A pair is contributed by right row `r` exactly when its right row is `r`, its left
      row is in the left tile and the predicate does not reject it. */
  lemma {:induction false} RowMatchesMembers(pred: Option<JoinPredicate>, li: nat, left: Tile, ri: nat, r: RowId, p: RowPair)
    ensures p in RowMatches(pred, li, left, ri, r) <==> p.1 == r && p.0 in left && Passes(pred, li, p.0, ri, r)
    decreases |left|
  {
    if left != [] {
      var init := left[..|left| - 1];
      RowMatchesMembers(pred, li, init, ri, r, p);
      assert left == init + [left[|left| - 1]];
    }
  }

  /** Pairing output: the position list holds exactly the pairs of a left row and a right
      row whose predicate result is not False (every pair when there is no predicate). */
  lemma {:induction false} JoinPairsMembers(pred: Option<JoinPredicate>, li: nat, left: Tile, ri: nat, right: Tile, p: RowPair)
    ensures p in JoinPairs(pred, li, left, ri, right) <==> p.0 in left && p.1 in right && Passes(pred, li, p.0, ri, p.1)
    decreases |right|
  {
    if right != [] {
      var init := right[..|right| - 1];
      JoinPairsMembers(pred, li, left, ri, init, p);
      RowMatchesMembers(pred, li, left, ri, right[|right| - 1], p);
      assert right == init + [right[|right| - 1]];
    }
  }

  /** The pairs of one right row are ordered by left row when the left tile is. */
  lemma {:induction false} RowMatchesOrdered(pred: Option<JoinPredicate>, li: nat, left: Tile, ri: nat, r: RowId)
    requires Ascending(left)
    ensures RightMajorOrdered(RowMatches(pred, li, left, ri, r))
    decreases |left|
  {
    if left != [] {
      var init := left[..|left| - 1];
      var l := left[|left| - 1];
      assert Ascending(init);
      RowMatchesOrdered(pred, li, init, ri, r);
      var tail: seq<RowPair> := if Passes(pred, li, l, ri, r) then [(l, r)] else [];
      forall x, y | x in RowMatches(pred, li, init, ri, r) && y in tail ensures RightMajorBefore(x, y) {
        RowMatchesMembers(pred, li, init, ri, r, x);
        var a :| 0 <= a < |init| && init[a] == x.0;
        assert left[a] == x.0;
      }
      OrderedConcat(RowMatches(pred, li, init, ri, r), tail);
    }
  }

  /** Pairing order: with both tiles in iteration order the output is strictly ordered by
      right row, then by left row; in particular no pair appears twice. */
  lemma {:induction false} JoinPairsOrdered(pred: Option<JoinPredicate>, li: nat, left: Tile, ri: nat, right: Tile)
    requires Ascending(left) && Ascending(right)
    ensures RightMajorOrdered(JoinPairs(pred, li, left, ri, right))
    decreases |right|
  {
    if right != [] {
      var init := right[..|right| - 1];
      var r := right[|right| - 1];
      assert Ascending(init);
      JoinPairsOrdered(pred, li, left, ri, init);
      RowMatchesOrdered(pred, li, left, ri, r);
      forall x, y | x in JoinPairs(pred, li, left, ri, init) && y in RowMatches(pred, li, left, ri, r)
        ensures RightMajorBefore(x, y)
      {
        JoinPairsMembers(pred, li, left, ri, init, x);
        RowMatchesMembers(pred, li, left, ri, r, y);
        var b :| 0 <= b < |init| && init[b] == x.1;
        assert right[b] == x.1;
      }
      OrderedConcat(JoinPairs(pred, li, left, ri, init), RowMatches(pred, li, left, ri, r));
    }
  }

  /** Without a predicate every left row is paired with every right row. */
  lemma {:induction false} CrossProductWithoutPredicate(li: nat, left: Tile, ri: nat, right: Tile)
    ensures |JoinPairs(None, li, left, ri, right)| == |left| * |right|
    ensures forall l, r :: l in left && r in right ==> (l, r) in JoinPairs(None, li, left, ri, right)
    decreases |right|
  {
    if right != [] {
      var init := right[..|right| - 1];
      CrossProductWithoutPredicate(li, left, ri, init);
      RowMatchesLengthWithoutPredicate(li, left, ri, right[|right| - 1]);
      assert |left| * |right| == |left| * |init| + |left|;
    }
    forall l, r | l in left && r in right ensures (l, r) in JoinPairs(None, li, left, ri, right) {
      JoinPairsMembers(None, li, left, ri, right, (l, r));
    }
  }

  lemma {:induction false} RowMatchesLengthWithoutPredicate(li: nat, left: Tile, ri: nat, r: RowId)
    ensures |RowMatches(None, li, left, ri, r)| == |left|
    decreases |left|
  {
    if left != [] {
      RowMatchesLengthWithoutPredicate(li, left[..|left| - 1], ri, r);
    }
  }

  /** Left-row recording: row `l` of left tile `li` is recorded exactly when some right
      row paired with it was not False, and nothing outside tile `li` is recorded. */
  lemma LeftMarksMeaning(pred: Option<JoinPredicate>, li: nat, left: Tile, ri: nat, right: Tile, m: MatchedRow)
    ensures m in LeftMarks(li, JoinPairs(pred, li, left, ri, right))
        <==> m.0 == li && m.1 in left && exists r :: r in right && Passes(pred, li, m.1, ri, r)
  {
    var pairs := JoinPairs(pred, li, left, ri, right);
    if m in LeftMarks(li, pairs) {
      var p :| p in pairs && m == (li, p.0);
      JoinPairsMembers(pred, li, left, ri, right, p);
    }
    if m.0 == li && m.1 in left && exists r :: r in right && Passes(pred, li, m.1, ri, r) {
      var r :| r in right && Passes(pred, li, m.1, ri, r);
      JoinPairsMembers(pred, li, left, ri, right, (m.1, r));
    }
  }

  /** Right-row recording: row `r` of right tile `ri` is recorded exactly when at least
      one left row matched it, and nothing outside tile `ri` is recorded. */
  lemma RightMarksMeaning(pred: Option<JoinPredicate>, li: nat, left: Tile, ri: nat, right: Tile, m: MatchedRow)
    ensures m in RightMarks(ri, JoinPairs(pred, li, left, ri, right))
        <==> m.0 == ri && m.1 in right && exists l :: l in left && Passes(pred, li, l, ri, m.1)
  {
    var pairs := JoinPairs(pred, li, left, ri, right);
    if m in RightMarks(ri, pairs) {
      var p :| p in pairs && m == (ri, p.1);
      JoinPairsMembers(pred, li, left, ri, right, p);
    }
    if m.0 == ri && m.1 in right && exists l :: l in left && Passes(pred, li, l, ri, m.1) {
      var l :| l in left && Passes(pred, li, l, ri, m.1);
      JoinPairsMembers(pred, li, left, ri, right, (l, m.1));
    }
  }

  /** All pairs of one right row carry that right row, so they record it at most once. */
  lemma RowMatchesRightMarks(pred: Option<JoinPredicate>, li: nat, left: Tile, ri: nat, r: RowId)
    ensures RightMarks(ri, RowMatches(pred, li, left, ri, r))
         == if RowMatches(pred, li, left, ri, r) == [] then {} else {(ri, r)}
  {
    var ps := RowMatches(pred, li, left, ri, r);
    forall p | p in ps ensures p.1 == r {
      RowMatchesMembers(pred, li, left, ri, r, p);
    }
    if ps != [] {
      assert ps[0] in ps;
    }
  }

  lemma LeftMarksSnoc(li: nat, pairs: seq<RowPair>, p: RowPair)
    ensures LeftMarks(li, pairs + [p]) == LeftMarks(li, pairs) + {(li, p.0)}
  {
    LeftMarksConcat(li, pairs, [p]);
    assert LeftMarks(li, [p]) == {(li, p.0)};
  }

  lemma RowMatchesStep(pred: Option<JoinPredicate>, li: nat, left: Tile, k: nat, ri: nat, r: RowId)
    requires k < |left|
    ensures RowMatches(pred, li, left[..k + 1], ri, r)
         == RowMatches(pred, li, left[..k], ri, r) + (if Passes(pred, li, left[k], ri, r) then [(left[k], r)] else [])
  {
    assert left[..k + 1][..k] == left[..k];
  }

  lemma JoinPairsStep(pred: Option<JoinPredicate>, li: nat, left: Tile, ri: nat, right: Tile, j: nat)
    requires j < |right|
    ensures JoinPairs(pred, li, left, ri, right[..j + 1])
         == JoinPairs(pred, li, left, ri, right[..j]) + RowMatches(pred, li, left, ri, right[j])
  {
    assert right[..j + 1][..j] == right[..j];
  }

  /** The inner loop of the matcher (lines 176-200): pairs every left row with right row
      `r`, skipping the pairs the predicate rejects, records each kept left row and reports
      whether any left row matched. */
  method PairRightRow(pred: Option<JoinPredicate>, li: nat, left: Tile, ri: nat, r: RowId,
                      pairsSoFar: seq<RowPair>, leftMatched: set<MatchedRow>)
    returns (pairs: seq<RowPair>, newLeftMatched: set<MatchedRow>, hasLeftMatch: bool)
    ensures pairs == pairsSoFar + RowMatches(pred, li, left, ri, r)
    ensures newLeftMatched == leftMatched + LeftMarks(li, RowMatches(pred, li, left, ri, r))
    ensures hasLeftMatch <==> RowMatches(pred, li, left, ri, r) != []
  {
    pairs, newLeftMatched, hasLeftMatch := pairsSoFar, leftMatched, false;
    var k := 0;
    while k < |left|
      invariant 0 <= k <= |left|
      invariant pairs == pairsSoFar + RowMatches(pred, li, left[..k], ri, r)
      invariant newLeftMatched == leftMatched + LeftMarks(li, RowMatches(pred, li, left[..k], ri, r))
      invariant hasLeftMatch <==> RowMatches(pred, li, left[..k], ri, r) != []
    {
      var l := left[k];
      RowMatchesStep(pred, li, left, k, ri, r);
      if pred.Some? && pred.value.eval(li, l, ri, r) == False {
        // the predicate rejects this pair: skip it
      } else {
        LeftMarksSnoc(li, RowMatches(pred, li, left[..k], ri, r), (l, r));
        newLeftMatched := newLeftMatched + {(li, l)};
        hasLeftMatch := true;
        pairs := pairs + [(l, r)];
      }
      k := k + 1;
    }
    assert left[..k] == left;
  }

  /** The matcher (lines 173-208): builds the position list of `left` (tile `li`) against
      `right` (tile `ri`) and records matches into the two trackers, which are passed in
      and handed back updated. */
  method PairTiles(pred: Option<JoinPredicate>, li: nat, left: Tile, ri: nat, right: Tile,
                   leftMatched: set<MatchedRow>, rightMatched: set<MatchedRow>)
    returns (pairs: seq<RowPair>, newLeftMatched: set<MatchedRow>, newRightMatched: set<MatchedRow>)
    ensures pairs == JoinPairs(pred, li, left, ri, right)
    ensures newLeftMatched == leftMatched + LeftMarks(li, pairs)
    ensures newRightMatched == rightMatched + RightMarks(ri, pairs)
  {
    pairs, newLeftMatched, newRightMatched := [], leftMatched, rightMatched;
    var j := 0;
    while j < |right|
      invariant 0 <= j <= |right|
      invariant pairs == JoinPairs(pred, li, left, ri, right[..j])
      invariant newLeftMatched == leftMatched + LeftMarks(li, pairs)
      invariant newRightMatched == rightMatched + RightMarks(ri, pairs)
    {
      var r := right[j];
      ghost var before := pairs;
      var hasLeftMatch;
      pairs, newLeftMatched, hasLeftMatch := PairRightRow(pred, li, left, ri, r, pairs, newLeftMatched);
      JoinPairsStep(pred, li, left, ri, right, j);
      LeftMarksConcat(li, before, RowMatches(pred, li, left, ri, r));
      RightMarksConcat(ri, before, RowMatches(pred, li, left, ri, r));
      RowMatchesRightMarks(pred, li, left, ri, r);
      if hasLeftMatch {
        newRightMatched := newRightMatched + {(ri, r)};
      }
      j := j + 1;
    }
    assert right[..j] == right;
  }
}
