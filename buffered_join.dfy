/** The generic, buffering variant of the nested-loop join as the executor object
    (NestedLoopJoinExecutor::Old_DExecute, nested_loop_join_executor.cpp lines 79-219,
    with DInit at lines 43-56).

    Each method changes the executor's fields and its children exactly as the matching
    function of BufferedJoinSpec says; what the calls achieve is proved there about those
    functions.
 */
module BufferedJoin {
  import opened JoinModel
  import opened PairwiseMatcher
  import opened MatchTracker
  import opened Children
  import opened BufferedJoinSpec

  class BufferedNestedLoopJoin {
    const left: TileQueue
    const right: TileQueue
    const outer: OuterJoinEmitter
    /** predicate_; None is the null predicate of a cartesian product. */
    const joinPredicate: Option<JoinPredicate>
    /** Everything the children will ever yield. */
    ghost const leftInput: seq<Tile>
    ghost const rightInput: seq<Tile>

    var leftDone: bool
    var rightDone: bool
    var leftItr: nat
    var rightItr: nat
    var leftTiles: seq<Tile>
    var rightTiles: seq<Tile>
    var leftMatched: set<MatchedRow>
    var rightMatched: set<MatchedRow>
    var output: Option<OutputTile>
    /** The tile pairs joined so far, in order. */
    ghost var joined: seq<TilePair>

    /** The executor's state together with what its children still hold. */
    ghost function Model(): JoinState
      reads this, left, right, outer
    {
      JoinState(left.remaining, right.remaining, outer.calls, leftDone, rightDone, leftItr, rightItr,
                leftTiles, rightTiles, leftMatched, rightMatched, output, joined)
    }

    ghost predicate Valid()
      reads this, left, right, outer
    {
      && left != right
      && Consistent(joinPredicate, Model())
      && leftTiles + left.remaining == leftInput
      && rightTiles + right.remaining == rightInput
    }

    constructor (left: TileQueue, right: TileQueue, outer: OuterJoinEmitter, joinPredicate: Option<JoinPredicate>)
      requires left != right
      ensures Valid()
      ensures this.left == left && this.right == right && this.outer == outer && this.joinPredicate == joinPredicate
      ensures leftInput == left.remaining && rightInput == right.remaining
      ensures Model() == JoinState(left.remaining, right.remaining, outer.calls, false, false, 0, 0,
                                   [], [], {}, {}, None, [])
    {
      this.left, this.right, this.outer, this.joinPredicate := left, right, outer, joinPredicate;
      leftInput, rightInput := left.remaining, right.remaining;
      leftDone, rightDone, leftItr, rightItr := false, false, 0, 0;
      leftTiles, rightTiles, leftMatched, rightMatched := [], [], {}, {};
      output, joined := None, [];
    }

    /** DInit (lines 43-56): when the abstract executor initialised (`baseOk`), clears the
        right done-flag and the right cursor; both buffers must be empty. */
    method DInit(baseOk: bool) returns (ok: bool)
      requires Valid()
      requires baseOk ==> leftTiles == [] && rightTiles == [] && !leftDone
      modifies this`rightDone, this`rightItr
      ensures Valid() && ok == baseOk
      ensures Model() == if baseOk then old(Model()).(rightDone := false, rightItr := 0) else old(Model())
    {
      if !baseOk {
        return false;
      }
      // the PL_ASSERT at line 49, which the requires guarantees
      assert rightTiles == [];
      rightDone := false;
      rightItr := 0;
      // the PL_ASSERT at line 53, which the requires guarantees
      assert leftTiles == [];
      ok := true;
    }

    /** Lines 98-128: advance the left cursor over the buffer once the left child is done,
        otherwise pull the left child; report whether the right child must be pulled. */
    method AdvanceLeft() returns (advance: bool)
      requires left != right && Scheduled(Model()) && !(leftDone && rightDone)
      modifies this`leftDone, this`leftItr, this`leftTiles, left
      ensures (Model(), advance) == LeftStep(old(Model()))
    {
      if leftDone {
        // line 103
        assert rightTiles != [];
        leftItr := leftItr + 1;
        advance := false;
        if leftItr >= |leftTiles| {
          advance := true;
          leftItr := 0;
        }
      } else {
        var produced, tile := left.Execute();
        if !produced {
          leftDone := true;
          leftItr := 0;
          advance := true;
        } else {
          leftTiles := leftTiles + [tile];
          leftItr := |leftTiles| - 1;
          advance := false;
        }
      }
    }

    /** Lines 130-157: pull the right child when the cursor wrapped or no right tile is
        buffered yet, handing off to outer-join completion when either side has nothing to
        join. */
    method AdvanceRight(advance: bool) returns (handedOff: bool, result: bool)
      requires left != right && LeftAdvanced(Model(), advance)
      modifies this`rightDone, this`rightTiles, right, outer
      ensures (Model(), handedOff, result) == RightStep(outer.answers, old(Model()), advance)
    {
      if advance || rightTiles == [] {
        if rightDone && rightTiles == [] {
          result := outer.BuildOuterJoinOutput();
          return true, result;
        }
        // line 136
        assert leftItr == 0;
        var produced, tile := right.Execute();
        if !produced {
          rightDone := true;
          result := outer.BuildOuterJoinOutput();
          return true, result;
        }
        rightTiles := rightTiles + [tile];
        if leftDone && leftTiles == [] {
          result := outer.BuildOuterJoinOutput();
          return true, result;
        }
      }
      handedOff, result := false, false;
    }

    /** Lines 86-157: hand off when both children are done, otherwise pick the next left
        tile and right tile. */
    method PickTiles() returns (handedOff: bool, result: bool)
      requires Valid()
      modifies this`leftDone, this`rightDone, this`leftItr, this`leftTiles, this`rightTiles, left, right, outer
      ensures (Model(), handedOff, result) == PickStep(outer.answers, old(Model()))
    {
      if leftDone && rightDone {
        result := outer.BuildOuterJoinOutput();
        return true, result;
      }
      LeftStepAdvances(Model());
      var advance := AdvanceLeft();
      handedOff, result := AdvanceRight(advance);
    }

    /** Lines 159-214: join the left tile at the cursor with the last right tile, record the
        matches and set the output tile when the position list is not empty. */
    method BuildJoinTile() returns (nonEmpty: bool)
      requires leftItr < |leftTiles| && rightTiles != []
      modifies this`leftMatched, this`rightMatched, this`joined, this`output
      ensures (Model(), nonEmpty) == JoinStep(joinPredicate, old(Model()))
    {
      var ri := |rightTiles| - 1;
      var pairs, lm, rm := PairTiles(joinPredicate, leftItr, leftTiles[leftItr], ri, rightTiles[ri], leftMatched, rightMatched);
      nonEmpty := |pairs| > 0;
      leftMatched, rightMatched, joined, output :=
        lm, rm, joined + [(leftItr, ri)], if nonEmpty then Some(OutputTile(leftItr, ri, pairs)) else output;
    }

    /** One pass of the control loop (lines 84-215): pick the next two tiles and join them,
        unless the call hands off to outer-join completion. */
    method Step() returns (handedOff: bool, result: bool)
      requires Valid()
      modifies this`leftDone, this`rightDone, this`leftItr, this`leftTiles, this`rightTiles
      modifies this`leftMatched, this`rightMatched, this`joined, this`output, left, right, outer
      ensures (Model(), handedOff, result) == LoopStep(joinPredicate, outer.answers, old(Model()))
    {
      PickStepReady(outer.answers, Model());
      handedOff, result := PickTiles();
      if !handedOff {
        result := BuildJoinTile();
      }
    }

    /** Old_DExecute (lines 79-219): loop until a non-empty output tile is set or the call
        hands off to outer-join completion. */
    method OldDExecute() returns (result: bool)
      requires Valid()
      modifies this`leftDone, this`rightDone, this`leftItr, this`leftTiles, this`rightTiles
      modifies this`leftMatched, this`rightMatched, this`joined, this`output, left, right, outer
      ensures Valid()
      ensures (Model(), result) == Run(joinPredicate, outer.answers, old(Model()))
    {
      while true
        invariant Valid()
        invariant Run(joinPredicate, outer.answers, Model()) == Run(joinPredicate, outer.answers, old(Model()))
        decreases LeftWork(Model()), RightWork(Model()), CursorWork(Model())
      {
        ghost var s := Model();
        LoopStepProgress(joinPredicate, outer.answers, s);
        LoopStepTracks(joinPredicate, outer.answers, s);
        var handedOff;
        handedOff, result := Step();
        if handedOff || result {
          return;
        }
      }
    }
  }
}
