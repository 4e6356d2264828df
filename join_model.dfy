/** Vocabulary shared by every part of the nested-loop join model.

    A logical tile is represented by the ids of its visible rows, in the order the tile's
    iterator yields them.  Buffered tiles are identified by their index in the left or right
    buffer of the join executor, so a (tile index, row id) pair names one buffered row.
 */
module JoinModel {

  /** A row position inside a tile (oid_t in the source). */
  type RowId = nat

  /** A column of the left child's output schema. */
  type ColumnId = nat

  /** Stands for a column value (common::Value); the model only moves it around. */
  type Value = int

  /** The visible rows of one logical tile, in iteration order. */
  type Tile = seq<RowId>

  /** One output row of a join: (left row, right row). */
  type RowPair = (RowId, RowId)

  /** Which two buffered tiles were joined: (left tile index, right tile index). */
  type TilePair = (nat, nat)

  /** A buffered row that the match tracker has recorded: (tile index, row id). */
  type MatchedRow = (nat, RowId)

  datatype Option<T> = None | Some(value: T)

  /** The output logical tile the executor sets: the two buffered tiles it draws from and
      its position list. */
  datatype OutputTile = OutputTile(leftTile: nat, rightTile: nat, rows: seq<RowPair>)

  /** Result of evaluating the join predicate under SQL's three-valued logic. */
  datatype Truth = True | False | Unknown

  /** The left operand of the join predicate: a column reference (the
      TupleValueExpression the correlated variant downcasts to) or anything else. */
  datatype Operand = ColumnRef(column: ColumnId) | OtherOperand

  /** The configured join predicate.  `eval` is the evaluator, opaque to the join core:
      it sees the left tile index, the left row, the right tile index and the right row. */
  datatype JoinPredicate = JoinPredicate(eval: (nat, RowId, nat, RowId) -> Truth, left: Operand)

  /** A pair survives unless a predicate is configured and evaluates to False;
      Unknown keeps the pair, exactly as the source's `IsFalse` test does. */
  predicate Passes(pred: Option<JoinPredicate>, li: nat, l: RowId, ri: nat, r: RowId)
  {
    pred.None? || pred.value.eval(li, l, ri, r) != False
  }

  /** Visible rows of a tile are yielded in strictly increasing order. */
  predicate Ascending(t: Tile)
  {
    forall a, b :: 0 <= a < b < |t| ==> t[a] < t[b]
  }

  /** Order "by the second component, then by the first": for row pairs that is
      right row then left row, for tile pairs right tile then left tile. */
  predicate RightMajorBefore(p: (nat, nat), q: (nat, nat))
  {
    p.1 < q.1 || (p.1 == q.1 && p.0 < q.0)
  }

  predicate RightMajorOrdered(s: seq<(nat, nat)>)
  {
    forall a, b :: 0 <= a < b < |s| ==> RightMajorBefore(s[a], s[b])
  }

  /** An ordered sequence holds no element twice. */
  lemma OrderedHasNoDuplicates(s: seq<(nat, nat)>)
    requires RightMajorOrdered(s)
    ensures forall a, b :: 0 <= a < b < |s| ==> s[a] != s[b]
  {
    forall a, b | 0 <= a < b < |s| ensures s[a] != s[b] {
      assert RightMajorBefore(s[a], s[b]);
    }
  }

  /** Concatenating two ordered sequences, all of the first before all of the second. */
  lemma OrderedConcat(s: seq<(nat, nat)>, t: seq<(nat, nat)>)
    requires RightMajorOrdered(s) && RightMajorOrdered(t)
    requires forall x, y :: x in s && y in t ==> RightMajorBefore(x, y)
    ensures RightMajorOrdered(s + t)
  {
    forall a, b | 0 <= a < b < |s + t| ensures RightMajorBefore((s + t)[a], (s + t)[b]) {
      if b < |s| {
        assert (s + t)[a] == s[a] && (s + t)[b] == s[b];
      } else if a >= |s| {
        assert (s + t)[a] == t[a - |s|] && (s + t)[b] == t[b - |s|];
      } else {
        assert (s + t)[a] == s[a] && (s + t)[b] == t[b - |s|];
        assert s[a] in s && t[b - |s|] in t;
      }
    }
  }
}
