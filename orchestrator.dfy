/**
 * The run: the plays of the month, the pagination guard, the id list, the
 * statistics of those ids, the ranking and its display. The two requests
 * to the service are not modelled; the plays response arrives as its
 * session total and its object ids, and the statistics request is the
 * function `fetchThings` from the id list to the items it returns.
 */
module Orchestrator {
  import opened PlayReduction
  import opened Ranking
  import opened Presentation

  /** The service returns at most this many plays per request. */
  const PageSize := 100

  const SessionsWarning := "Sessions greater than 100, see TODO"

  /**
   * `main`: warns once when the session total is more than one page, and
   * goes on regardless with the plays it was given. The lines printed are
   * the header and one line per ranked game; they do not depend on the
   * total.
   */
  method Report(totalSessions: int, objectIds: seq<string>, fetchThings: string -> seq<Item>)
    returns (warnings: seq<string>, lines: seq<string>)
    ensures warnings == if totalSessions > PageSize then [SessionsWarning] else []
    ensures var games := RankGames(fetchThings(GameIdsFromPlays(objectIds)));
      && |lines| == |games| + 1
      && lines[0] == HeaderLine()
      && forall k :: 0 <= k < |games| ==> lines[k + 1] == GameLine(games[k])
  {
    warnings := [];
    if totalSessions > PageSize {
      warnings := warnings + [SessionsWarning];
    }
    var gameIds := GameIdsFromPlays(objectIds);
    var items := fetchThings(gameIds);
    lines := DisplayGames(RankGames(items));
  }
}
