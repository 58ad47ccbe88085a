/**
 * Search outcomes (SearchResult.java) and the strategy names the driver
 * accepts (Ex1.selectSearchAlgorithm).
 */
module Results {
  import opened Wrappers
  import opened Board
  import opened Paths

  /** A path cost: finite, or Double.POSITIVE_INFINITY. */
  datatype Cost = Finite(value: int) | Infinity

  /** The solution string, the node count and the cost; the runtime is not modelled. */
  datatype SearchResult = SearchResult(solution: string, nodesCreated: int, cost: Cost)

  /** BFS reports failure in lower case, the other strategies capitalised. */
  const BfsNoPath: string := "no path"
  const NoPath: string := "No Path"

  /** Integer.MAX_VALUE, the cost A*, IDA* and DFBnB report with "No Path". */
  const MaxCost: int := 2147483647

  /**
   * The result describes a real solution: its solution string decodes to
   * legal moves leading from init to goal, and its cost is their total weight.
   */
  ghost predicate Solves(init: seq<char>, goal: seq<char>, r: SearchResult)
  {
    Decode(r.solution).Some? && Legal(init, Decode(r.solution).value)
    && Replay(init, Decode(r.solution).value) == goal
    && r.cost == Finite(PathCost(Decode(r.solution).value))
  }

  /** A failure marker never decodes, so it cannot be mistaken for a solution. */
  lemma NoPathIsNotASolution(init: seq<char>, goal: seq<char>, n: int, c: Cost)
    ensures !Solves(init, goal, SearchResult(BfsNoPath, n, c))
    ensures !Solves(init, goal, SearchResult(NoPath, n, c))
  {
  }

  /** The five strategies. */
  datatype Strategy = Bfs | Dfid | AStar | IdaStar | Dfbnb

  /** selectSearchAlgorithm: the five accepted names; any other name is rejected (the Java throws). */
  function SelectStrategy(name: string): (s: Option<Strategy>)
    ensures s == Some(Bfs) <==> name == "BFS"
    ensures s == Some(Dfid) <==> name == "DFID"
    ensures s == Some(AStar) <==> name == "A*"
    ensures s == Some(IdaStar) <==> name == "IDA*"
    ensures s == Some(Dfbnb) <==> name == "DFBnB"
    ensures s.None? <==> name !in ["BFS", "DFID", "A*", "IDA*", "DFBnB"]
  {
    if name == "BFS" then Some(Bfs)
    else if name == "DFID" then Some(Dfid)
    else if name == "A*" then Some(AStar)
    else if name == "IDA*" then Some(IdaStar)
    else if name == "DFBnB" then Some(Dfbnb)
    else None
  }
}
