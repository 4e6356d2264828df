/** The match trackers of the abstract join executor, seen as sets of (tile index, row)
    pairs.  Every join of a tile pair adds the marks of its position list
    (RecordMatchedLeftRow / RecordMatchedRightRow); what the trackers hold after a
    sequence of joins is the union of those marks.  Recording the same row twice is the
    same as recording it once, as for the source's bitsets.
 */
module MatchTracker {
  import opened JoinModel
  import opened PairwiseMatcher
  import opened PairSchedule

  /** Every joined tile pair names buffered tiles. */
  predicate InRange(lefts: seq<Tile>, rights: seq<Tile>, joined: seq<TilePair>)
  {
    forall k :: 0 <= k < |joined| ==> joined[k].0 < |lefts| && joined[k].1 < |rights|
  }

  /** The position list that joining the tile pair `jp` produces. */
  function PairRowsOf(pred: Option<JoinPredicate>, lefts: seq<Tile>, rights: seq<Tile>, jp: TilePair): seq<RowPair>
    requires jp.0 < |lefts| && jp.1 < |rights|
  {
    JoinPairs(pred, jp.0, lefts[jp.0], jp.1, rights[jp.1])
  }

  /** The left tracker after joining the tile pairs `joined`, in order, from empty. */
  function LeftMarksOver(pred: Option<JoinPredicate>, lefts: seq<Tile>, rights: seq<Tile>, joined: seq<TilePair>): set<MatchedRow>
    requires InRange(lefts, rights, joined)
    decreases |joined|
  {
    if joined == [] then {}
    else
      var jp := joined[|joined| - 1];
      LeftMarksOver(pred, lefts, rights, joined[..|joined| - 1]) + LeftMarks(jp.0, PairRowsOf(pred, lefts, rights, jp))
  }

  /** The right tracker after joining the tile pairs `joined`, in order, from empty. */
  function RightMarksOver(pred: Option<JoinPredicate>, lefts: seq<Tile>, rights: seq<Tile>, joined: seq<TilePair>): set<MatchedRow>
    requires InRange(lefts, rights, joined)
    decreases |joined|
  {
    if joined == [] then {}
    else
      var jp := joined[|joined| - 1];
      RightMarksOver(pred, lefts, rights, joined[..|joined| - 1]) + RightMarks(jp.1, PairRowsOf(pred, lefts, rights, jp))
  }

  /** Joining one more pair adds exactly its marks. */
  lemma MarksOverSnoc(pred: Option<JoinPredicate>, lefts: seq<Tile>, rights: seq<Tile>, joined: seq<TilePair>, jp: TilePair)
    requires InRange(lefts, rights, joined) && jp.0 < |lefts| && jp.1 < |rights|
    ensures InRange(lefts, rights, joined + [jp])
    ensures LeftMarksOver(pred, lefts, rights, joined + [jp])
         == LeftMarksOver(pred, lefts, rights, joined) + LeftMarks(jp.0, PairRowsOf(pred, lefts, rights, jp))
    ensures RightMarksOver(pred, lefts, rights, joined + [jp])
         == RightMarksOver(pred, lefts, rights, joined) + RightMarks(jp.1, PairRowsOf(pred, lefts, rights, jp))
  {
    assert (joined + [jp])[..|joined|] == joined;
  }

  /** Buffers only grow, and appending tiles does not change what earlier joins recorded. */
  lemma {:induction false} MarksOverExtend(pred: Option<JoinPredicate>, lefts: seq<Tile>, rights: seq<Tile>,
                                           lefts': seq<Tile>, rights': seq<Tile>, joined: seq<TilePair>)
    requires InRange(lefts, rights, joined) && lefts <= lefts' && rights <= rights'
    ensures InRange(lefts', rights', joined)
    ensures LeftMarksOver(pred, lefts, rights, joined) == LeftMarksOver(pred, lefts', rights', joined)
    ensures RightMarksOver(pred, lefts, rights, joined) == RightMarksOver(pred, lefts', rights', joined)
    decreases |joined|
  {
    if joined != [] {
      var jp := joined[|joined| - 1];
      MarksOverExtend(pred, lefts, rights, lefts', rights', joined[..|joined| - 1]);
      assert lefts[jp.0] == lefts'[jp.0] && rights[jp.1] == rights'[jp.1];
    }
  }

  /** The two trackers hold exactly what joining the pairs `joined`, in order, recorded. */
  predicate Tracks(pred: Option<JoinPredicate>, lefts: seq<Tile>, rights: seq<Tile>, joined: seq<TilePair>,
                   leftMatched: set<MatchedRow>, rightMatched: set<MatchedRow>)
  {
    && InRange(lefts, rights, joined)
    && leftMatched == LeftMarksOver(pred, lefts, rights, joined)
    && rightMatched == RightMarksOver(pred, lefts, rights, joined)
  }

  /** Buffering another tile keeps the trackers in step. */
  lemma TracksExtend(pred: Option<JoinPredicate>, lefts: seq<Tile>, rights: seq<Tile>, lefts': seq<Tile>, rights': seq<Tile>,
                     joined: seq<TilePair>, leftMatched: set<MatchedRow>, rightMatched: set<MatchedRow>)
    requires Tracks(pred, lefts, rights, joined, leftMatched, rightMatched)
    requires lefts <= lefts' && rights <= rights'
    ensures Tracks(pred, lefts', rights', joined, leftMatched, rightMatched)
  {
    MarksOverExtend(pred, lefts, rights, lefts', rights', joined);
  }

  /** Joining the pair `jp` and recording its position list keeps the trackers in step. */
  lemma TracksRecord(pred: Option<JoinPredicate>, lefts: seq<Tile>, rights: seq<Tile>, joined: seq<TilePair>,
                     leftMatched: set<MatchedRow>, rightMatched: set<MatchedRow>, jp: TilePair,
                     leftMatched': set<MatchedRow>, rightMatched': set<MatchedRow>)
    requires Tracks(pred, lefts, rights, joined, leftMatched, rightMatched)
    requires jp.0 < |lefts| && jp.1 < |rights|
    requires leftMatched' == leftMatched + LeftMarks(jp.0, PairRowsOf(pred, lefts, rights, jp))
    requires rightMatched' == rightMatched + RightMarks(jp.1, PairRowsOf(pred, lefts, rights, jp))
    ensures Tracks(pred, lefts, rights, joined + [jp], leftMatched', rightMatched')
  {
    MarksOverSnoc(pred, lefts, rights, joined, jp);
  }

  /** The joined pairs from step `from` on all produced an empty position list. */
  predicate NoPairsFrom(pred: Option<JoinPredicate>, lefts: seq<Tile>, rights: seq<Tile>, joined: seq<TilePair>, from: nat)
  {
    && InRange(lefts, rights, joined)
    && forall k :: from <= k < |joined| ==> PairRowsOf(pred, lefts, rights, joined[k]) == []
  }

  /** No pair from `from` on in a list that ends before it. */
  lemma NoPairsAtEnd(pred: Option<JoinPredicate>, lefts: seq<Tile>, rights: seq<Tile>, joined: seq<TilePair>,
                     full: seq<TilePair>, from: nat)
    requires InRange(lefts, rights, full) && joined <= full && from >= |joined|
    ensures NoPairsFrom(pred, lefts, rights, joined, from)
  {
    forall k | 0 <= k < |joined| ensures joined[k].0 < |lefts| && joined[k].1 < |rights| {
      assert joined[k] == full[k];
    }
  }

  /** A silent pair `jp` joined right after `before` extends a silent stretch that starts
      after it, over all of `joined` or all but its last pair, even with more tiles
      buffered since `jp` was joined. */
  lemma NoPairsPrepend(pred: Option<JoinPredicate>, lefts: seq<Tile>, rights: seq<Tile>, lefts': seq<Tile>, rights': seq<Tile>,
                       before: seq<TilePair>, jp: TilePair, joined: seq<TilePair>)
    requires lefts <= lefts' && rights <= rights' && jp.0 < |lefts| && jp.1 < |rights|
    requires PairRowsOf(pred, lefts, rights, jp) == []
    requires before + [jp] <= joined
    ensures NoPairsFrom(pred, lefts', rights', joined, |before| + 1) ==>
              NoPairsFrom(pred, lefts', rights', joined, |before|)
    ensures NoPairsFrom(pred, lefts', rights', joined[..|joined| - 1], |before| + 1) ==>
              NoPairsFrom(pred, lefts', rights', joined[..|joined| - 1], |before|)
  {
    assert joined[|before|] == jp;
    assert lefts'[jp.0] == lefts[jp.0] && rights'[jp.1] == rights[jp.1];
  }

  /** A row is in the left tracker exactly when one of the joined pairs recorded it. */
  lemma {:induction false} LeftMarksOverMembers(pred: Option<JoinPredicate>, lefts: seq<Tile>, rights: seq<Tile>,
                                                joined: seq<TilePair>, m: MatchedRow)
    requires InRange(lefts, rights, joined)
    ensures m in LeftMarksOver(pred, lefts, rights, joined)
        <==> exists k :: 0 <= k < |joined| && m in LeftMarks(joined[k].0, PairRowsOf(pred, lefts, rights, joined[k]))
    decreases |joined|
  {
    if joined != [] {
      var init := joined[..|joined| - 1];
      LeftMarksOverMembers(pred, lefts, rights, init, m);
      assert forall k :: 0 <= k < |init| ==> init[k] == joined[k];
    }
  }

  lemma {:induction false} RightMarksOverMembers(pred: Option<JoinPredicate>, lefts: seq<Tile>, rights: seq<Tile>,
                                                 joined: seq<TilePair>, m: MatchedRow)
    requires InRange(lefts, rights, joined)
    ensures m in RightMarksOver(pred, lefts, rights, joined)
        <==> exists k :: 0 <= k < |joined| && m in RightMarks(joined[k].1, PairRowsOf(pred, lefts, rights, joined[k]))
    decreases |joined|
  {
    if joined != [] {
      var init := joined[..|joined| - 1];
      RightMarksOverMembers(pred, lefts, rights, init, m);
      assert forall k :: 0 <= k < |init| ==> init[k] == joined[k];
    }
  }

  lemma SchedInRange(lefts: seq<Tile>, rights: seq<Tile>)
    ensures InRange(lefts, rights, Sched(|lefts|, |rights|))
  {
    var s := Sched(|lefts|, |rights|);
    forall k | 0 <= k < |s| ensures s[k].0 < |lefts| && s[k].1 < |rights| {
      SchedMembers(|lefts|, |rights|, s[k]);
    }
  }

  /** After the full schedule the left tracker holds row l of left tile i exactly when l
      matched some row of some right tile: the rows outer-join completion must not pad. */
  lemma CompleteLeftMarks(pred: Option<JoinPredicate>, lefts: seq<Tile>, rights: seq<Tile>, m: MatchedRow)
    ensures InRange(lefts, rights, Sched(|lefts|, |rights|))
    ensures m in LeftMarksOver(pred, lefts, rights, Sched(|lefts|, |rights|))
        <==> m.0 < |lefts| && m.1 in lefts[m.0]
             && exists j, r :: 0 <= j < |rights| && r in rights[j] && Passes(pred, m.0, m.1, j, r)
  {
    var s := Sched(|lefts|, |rights|);
    SchedInRange(lefts, rights);
    LeftMarksOverMembers(pred, lefts, rights, s, m);
    if m in LeftMarksOver(pred, lefts, rights, s) {
      var k :| 0 <= k < |s| && m in LeftMarks(s[k].0, PairRowsOf(pred, lefts, rights, s[k]));
      LeftMarksMeaning(pred, s[k].0, lefts[s[k].0], s[k].1, rights[s[k].1], m);
    }
    if m.0 < |lefts| && m.1 in lefts[m.0] && exists j, r :: 0 <= j < |rights| && r in rights[j] && Passes(pred, m.0, m.1, j, r) {
      var j, r :| 0 <= j < |rights| && r in rights[j] && Passes(pred, m.0, m.1, j, r);
      SchedMembers(|lefts|, |rights|, (m.0, j));
      var k :| 0 <= k < |s| && s[k] == (m.0, j);
      LeftMarksMeaning(pred, m.0, lefts[m.0], j, rights[j], m);
    }
  }

  /** After the full schedule the right tracker holds row r of right tile j exactly when
      some row of some left tile matched it. */
  lemma CompleteRightMarks(pred: Option<JoinPredicate>, lefts: seq<Tile>, rights: seq<Tile>, m: MatchedRow)
    ensures InRange(lefts, rights, Sched(|lefts|, |rights|))
    ensures m in RightMarksOver(pred, lefts, rights, Sched(|lefts|, |rights|))
        <==> m.0 < |rights| && m.1 in rights[m.0]
             && exists i, l :: 0 <= i < |lefts| && l in lefts[i] && Passes(pred, i, l, m.0, m.1)
  {
    var s := Sched(|lefts|, |rights|);
    SchedInRange(lefts, rights);
    RightMarksOverMembers(pred, lefts, rights, s, m);
    if m in RightMarksOver(pred, lefts, rights, s) {
      var k :| 0 <= k < |s| && m in RightMarks(s[k].1, PairRowsOf(pred, lefts, rights, s[k]));
      RightMarksMeaning(pred, s[k].0, lefts[s[k].0], s[k].1, rights[s[k].1], m);
    }
    if m.0 < |rights| && m.1 in rights[m.0] && exists i, l :: 0 <= i < |lefts| && l in lefts[i] && Passes(pred, i, l, m.0, m.1) {
      var i, l :| 0 <= i < |lefts| && l in lefts[i] && Passes(pred, i, l, m.0, m.1);
      SchedMembers(|lefts|, |rights|, (i, m.0));
      var k :| 0 <= k < |s| && s[k] == (i, m.0);
      RightMarksMeaning(pred, i, lefts[i], m.0, rights[m.0], m);
    }
  }
}
