/** The collaborators the join core pulls from or hands off to.  Only the behaviour the
    core relies on is modelled: a child yields tiles until it is exhausted, an index-scan
    child can take a new key and be reset, and outer-join completion answers a bool.
 */
module Children {
  import opened JoinModel

  /** A child operator as a finite queue of tiles: Execute() followed by GetOutput(). */
  class TileQueue {
    var remaining: seq<Tile>

    constructor (tiles: seq<Tile>)
      ensures remaining == tiles
    {
      remaining := tiles;
    }

    /** Yields the next tile, or reports exhaustion and stays exhausted. */
    method Execute() returns (produced: bool, tile: Tile)
      modifies this
      ensures produced <==> old(remaining) != []
      ensures produced ==> tile == old(remaining)[0] && remaining == old(remaining)[1..]
      ensures !produced ==> remaining == old(remaining)
    {
      if remaining == [] {
        produced, tile := false, [];
      } else {
        produced, tile := true, remaining[0];
        remaining := remaining[1..];
      }
    }
  }

  /** The state of an index-scan child: the key it will look up, whether it has looked it
      up since the last reset, the tiles found and how many of them it has yielded.
      `pushed` and `yielded` record every key installed and every tile yielded, in order. */
  datatype ScanState = ScanState(key: Value, scanned: bool, results: seq<Tile>, pos: nat,
                                 pushed: seq<Value>, yielded: seq<Tile>)

  predicate ScanValid(p: ScanState)
  {
    p.pos <= |p.results| && (!p.scanned ==> p.results == [] && p.pos == 0)
  }

  /** The tiles the child will still yield before it reports exhaustion. */
  function ScanRemaining(lookup: Value -> seq<Tile>, p: ScanState): seq<Tile>
    requires ScanValid(p)
  {
    if p.scanned then p.results[p.pos..] else lookup(p.key)
  }

  /** Calls to Execute() still to come that do some work. */
  function ScanPending(lookup: Value -> seq<Tile>, p: ScanState): nat
    requires ScanValid(p)
  {
    |ScanRemaining(lookup, p)| + (if p.scanned then 0 else 1)
  }

  /** IndexScanPlan::ReplaceKeyValue: installs `v` as the key when the plan accepts it. */
  function ScanReplace(accepts: (ColumnId, Value) -> bool, p: ScanState, column: ColumnId, v: Value): (ScanState, bool)
  {
    if accepts(column, v) then (p.(key := v, pushed := p.pushed + [v]), true) else (p, false)
  }

  /** Execute() then GetOutput(): the first call after a reset looks the key up; each call
      yields the next tile found, or reports exhaustion. */
  function ScanExecute(lookup: Value -> seq<Tile>, p: ScanState): (ScanState, bool, Tile)
    requires ScanValid(p)
  {
    var q := if p.scanned then p else p.(scanned := true, results := lookup(p.key), pos := 0);
    if q.pos < |q.results| then
      (q.(pos := q.pos + 1, yielded := q.yielded + [q.results[q.pos]]), true, q.results[q.pos])
    else (q, false, [])
  }

  /** IndexScanExecutor::ResetState: forget the previous lookup. */
  function ScanReset(p: ScanState): ScanState
  {
    p.(scanned := false, results := [], pos := 0)
  }

  /** Execute() yields the tiles still to come one by one, in order, and then reports
      exhaustion until the next reset; the key and the keys pushed stay as they were. */
  lemma ScanExecuteYields(lookup: Value -> seq<Tile>, p: ScanState)
    requires ScanValid(p)
    ensures var (q, produced, tile) := ScanExecute(lookup, p);
      && ScanValid(q) && q.scanned && q.key == p.key && q.pushed == p.pushed
      && (produced <==> ScanRemaining(lookup, p) != [])
      && (produced ==>
            && tile == ScanRemaining(lookup, p)[0]
            && ScanRemaining(lookup, q) == ScanRemaining(lookup, p)[1..]
            && q.yielded == p.yielded + [tile]
            && ScanPending(lookup, q) < ScanPending(lookup, p))
      && (!produced ==> q.yielded == p.yielded && ScanRemaining(lookup, q) == [])
  {
  }

  /** An index-scan child as an object: `lookup` is the index, `accepts` says whether
      ReplaceKeyValue succeeds for a column and value. */
  class IndexScanChild {
    const lookup: Value -> seq<Tile>
    const accepts: (ColumnId, Value) -> bool
    var key: Value
    var scanned: bool
    var results: seq<Tile>
    var pos: nat
    /** Every key ReplaceKeyValue installed, in order. */
    ghost var pushed: seq<Value>
    /** Every tile this child has yielded, in order. */
    ghost var yielded: seq<Tile>

    ghost function State(): ScanState
      reads this
    {
      ScanState(key, scanned, results, pos, pushed, yielded)
    }

    constructor (lookup: Value -> seq<Tile>, accepts: (ColumnId, Value) -> bool, key: Value)
      ensures ScanValid(State()) && this.lookup == lookup && this.accepts == accepts
      ensures State() == ScanState(key, false, [], 0, [], [])
    {
      this.lookup, this.accepts, this.key := lookup, accepts, key;
      scanned, results, pos := false, [], 0;
      pushed, yielded := [], [];
    }

    method ReplaceKeyValue(column: ColumnId, v: Value) returns (ok: bool)
      modifies this`key, this`pushed
      ensures (State(), ok) == ScanReplace(accepts, old(State()), column, v)
    {
      ok := accepts(column, v);
      if ok {
        key := v;
        pushed := pushed + [v];
      }
    }

    method Execute() returns (produced: bool, tile: Tile)
      requires ScanValid(State())
      modifies this`scanned, this`results, this`pos, this`yielded
      ensures (State(), produced, tile) == ScanExecute(lookup, old(State()))
    {
      if !scanned {
        results, pos, scanned := lookup(key), 0, true;
      }
      if pos < |results| {
        produced, tile := true, results[pos];
        pos := pos + 1;
        yielded := yielded + [tile];
      } else {
        produced, tile := false, [];
      }
    }

    method ResetState()
      modifies this`scanned, this`results, this`pos
      ensures State() == ScanReset(old(State()))
    {
      scanned, results, pos := false, [], 0;
    }
  }

  /** BuildOuterJoinOutput, which belongs to the abstract join executor: modelled as an
      opaque step whose n-th answer is `answers(n)`. */
  class OuterJoinEmitter {
    const answers: nat -> bool
    var calls: nat

    constructor (answers: nat -> bool)
      ensures this.answers == answers && calls == 0
    {
      this.answers, calls := answers, 0;
    }

    method BuildOuterJoinOutput() returns (more: bool)
      modifies this
      ensures calls == old(calls) + 1 && more == answers(old(calls))
    {
      more := answers(calls);
      calls := calls + 1;
    }
  }
}
