/** What getShortestPath of the Johnson program returns, and how its loop over the
    sources keeps the best answer so far. */
module JohnsonAnswers {
  import opened Wrappers
  import opened ExtInt
  import opened Walks
  import opened JohnsonSearch
  import BF = AllPairsBellmanFord

  /** vs, ending at a vertex of the graph, is the vertex sequence of a walk of length m from
      u, u is the first source with a walk that short, and the walk ends at the first vertex
      that u reaches at length m. */
  ghost predicate FoundFrom(E: seq<Edge>, vertexCount: int, u: int, m: ExtInt, vs: seq<int>)
  {
    1 <= u <= vertexCount && BF.WalkPath(E, vertexCount, u, vs, m) && BF.Earliest(E, vertexCount, u, m)
    && |vs| > 0 && FirstAttained(E, vertexCount, u, vs[|vs| - 1], m)
  }

  /** What getShortestPath returns when no negative closed walk stops it: the least length
      of a walk between two different vertices of 1 to vertexCount (inf when there is none),
      and the vertex sequence of such a walk. */
  ghost predicate ShortestShortest(E: seq<Edge>, vertexCount: int, shortestPath: ExtInt, path: Option<seq<int>>)
  {
    LeastPair(E, 1, vertexCount + 1, vertexCount + 1, shortestPath)
    && (shortestPath.Inf? <==> path.None?)
    && (path.Some? ==> exists u :: FoundFrom(E, vertexCount, u, shortestPath, path.value))
  }

  /** The loop invariant of lines 352-357 before source `vertex`: the best answer from the
      sources before it, and the source it came from. */
  ghost predicate BestSoFar(E: seq<Edge>, vertexCount: int, vertex: int, shortestPath: ExtInt,
                            path: Option<seq<int>>, from: int)
  {
    LeastPair(E, 1, vertex, vertexCount + 1, shortestPath)
    && (shortestPath.Inf? <==> path.None?)
    && (path.Some? ==> from < vertex && FoundFrom(E, vertexCount, from, shortestPath, path.value))
  }

  lemma NoneYet(E: seq<Edge>, vertexCount: int)
    ensures BestSoFar(E, vertexCount, 1, Inf, None, 1)
  {
    LeastPairEmpty(E, 1, vertexCount + 1);
  }

  /** dijkstra's answer from `vertex` replaces the best so far only when it is strictly
      shorter. */
  lemma KeepBest(E: seq<Edge>, vertexCount: int, vertex: int, shortestPath: ExtInt,
                 path: Option<seq<int>>, from: int, single: ExtInt, singlePath: Option<seq<int>>)
    requires BestSoFar(E, vertexCount, vertex, shortestPath, path, from) && 1 <= vertex <= vertexCount
    requires Answered(E, vertexCount, vertex, single, singlePath)
    ensures if Lt(single, shortestPath)
      then BestSoFar(E, vertexCount, vertex + 1, single, singlePath, vertex)
      else BestSoFar(E, vertexCount, vertex + 1, shortestPath, path, from)
  {
    LeastPairStep(E, 1, vertex, vertexCount + 1, shortestPath, single);
    if Lt(single, shortestPath) {
      BF.EarliestAfter(E, vertexCount, vertex, shortestPath, single);
    }
  }

  lemma Best(E: seq<Edge>, vertexCount: int, shortestPath: ExtInt, path: Option<seq<int>>, from: int)
    requires BestSoFar(E, vertexCount, vertexCount + 1, shortestPath, path, from)
    ensures ShortestShortest(E, vertexCount, shortestPath, path)
  {
  }
}
