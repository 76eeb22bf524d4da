# Games by obscurity, modelled in Dafny

The program fetches one user's logged plays for one month from the
BoardGameGeek XML API, reduces them to the distinct game ids, fetches the
"usersrated" statistic (the number of users who rated the game) of each of
those games, and prints the games from fewest to most ratings, as lines of
forum markup under a header. This project models the data reshaping between
and after the two requests, and proves what it promises:

- `wrappers.dfy` — `Option`, used by the line reader.
- `play_reduction.dfy` (module `PlayReduction`) — `gameIdsFromPlaysObject`:
  `Array.from(new Set(ids))` as `Unique`, built from `SetAdd` (a JavaScript
  `Set` kept as its insertion order), then `Join` with `,`; `Split` is the
  reading side of `Join`.
- `ranking.dfy` (module `Ranking`) — `gamesAndVotesFromItemsObject`: one
  `GameVotes(id, game, votes)` record per item, sorted by ascending votes.
  The engine's sort is only required to be stable, so the model uses an
  insertion sort and proves that a sorted, tie-order-keeping result is
  unique: every conforming engine returns `RankGames`.
- `presentation.dfy` (module `Presentation`) — `displayGames`: the header
  `bootleby's plays for 2018-04-01 - 2018-04-30`, then
  `[thing=<id>]<game>[/thing] [size=6](<votes> votes)[/size]` per game. The
  console is the returned sequence of lines. `ParseGameLine` reads a game
  line back; it reads back the record of every line whose id has no `]`.
- `orchestrator.dfy` (module `Orchestrator`) — `main` as `Report`: the
  `total > 100` warning and the composition of the steps above.

Inputs are flat: the plays response is its session total (an `int`) and the
list of its plays' object ids; the "thing" response is a list of
`Item(id, name, usersRated)` with the count already a `nat`.

The code fixes the order of the distinct ids: a `Set` keeps insertion
order, so the ids go out in the order of their first play. The model
follows the code and proves that order. The ranking re-sorts the games by
rating count, so the id order can reach the printed lines only for games
with equal counts, and only through the order in which the service returns
their items (the sort is stable).

## Model

| member | source | states |
|---|---|---|
| PlayReduction.SetAdd | index.js:60 | adding an id already in the set leaves the order unchanged; a new id goes to the end |
| PlayReduction.Join | index.js:63 | `join(',')`: the parts with one comma between neighbours; see JoinThenSplit and JoinEdges |
| PlayReduction.GameIdsFromPlays | index.js:58-64 | the distinct ids in first-play order joined with commas; see GameIdsFromPlaysSpec, Unique and UniqueKeepsFirstOccurrenceOrder |
| PlayReduction.Unique | index.js:59-62 | the distinct ids have no duplicates, hold exactly the ids of the plays, and are no more than the plays |
| PlayReduction.UniqueKeepsFirstOccurrenceOrder | index.js:59-62 | an id listed before another was first played before it (insertion order of the `Set`) |
| PlayReduction.UniqueIsDetermined | index.js:59-62 | any duplicate-free list of exactly the played ids in first-play order equals the reduction |
| PlayReduction.JoinThenSplit | index.js:63 | joining comma-free parts with `,` and splitting at `,` gives the parts back: one comma between neighbours and nowhere else |
| PlayReduction.JoinEdges | index.js:63 | the joined string begins with the first part and ends with the last |
| PlayReduction.GameIdsFromPlaysSpec | index.js:54-64 | no plays give the empty string; otherwise, for comma-free ids, the string splits into exactly the distinct ids in first-play order, and when no id is empty it has no leading or trailing comma |
| PlayReduction.RepeatedPlayExample | index.js:58-64 | plays of 10, 20, 10 give `10,20` |
| Ranking.ToGameVotes | index.js:71-74 | the record of one item: its id, its name as `game`, its rating count as `votes`; see ExtractRecords |
| Ranking.RankGames | index.js:70-76 | the records of the items sorted stably by ascending votes; see RankGamesSpec and AnyStableSortIsRankGames |
| Ranking.ExtractRecords | index.js:71-74 | one record per item, in item order, with the item's id, name and rating count |
| Ranking.InsertAddsRecord | index.js:75 | inserting a record adds exactly that record and nothing else |
| Ranking.InsertKeepsSorted | index.js:75 | inserting a record into a list sorted by votes leaves it sorted |
| Ranking.InsertionSort | index.js:75 | the sorted list has the same length and the same records (a permutation) and is non-decreasing by votes |
| Ranking.InsertionSortKeepsTieOrder | index.js:75 | the sort is stable: for every vote count the records with that count keep their input order |
| Ranking.RankGamesSpec | index.js:66-76 | the ranking has as many records as items, is a permutation of the mapped records, is sorted by ascending votes, and keeps ties in item order |
| Ranking.StableSortIsUnique | index.js:75 | two sorted lists with the same tie order are equal, so any stable ascending sort gives the same ranking |
| Ranking.AnyStableSortIsRankGames | index.js:75 | every sorted list that keeps the tie order of the item records equals `RankGames`, so every conforming engine prints the same ranking |
| Ranking.TwoGamesExample | index.js:70-76 | items A with 500 votes and B with 50 rank as B then A |
| Presentation.HeaderLine | index.js:83 | the header `bootleby's plays for 2018-04-01 - 2018-04-30`; see DisplayGames |
| Presentation.GameLine | index.js:86 | `[thing=<id>]<game>[/thing] [size=6](<votes> votes)[/size]`; see GameLineRoundTrip and DisplayGames |
| Presentation.NatToString | index.js:86 | a vote count prints as at least one decimal digit with no leading zero |
| Presentation.ParseNatToString | index.js:86 | reading the printed count back gives the count |
| Presentation.GameLineRoundTrip | index.js:86 | a game line reads back as its record (id, name and count), for ids without `]` |
| Presentation.DisplayExample | index.js:83-86 | the header is `bootleby's plays for 2018-04-01 - 2018-04-30`, and game 20 named B with 50 votes prints as `[thing=20]B[/thing] [size=6](50 votes)[/size]` |
| Presentation.DisplayGames | index.js:82-88 | exactly one header line then one line per game: line k+1 is the template filled with the k-th record |
| Orchestrator.Report | index.js:21-31 | one warning exactly when the session total exceeds 100; the lines are the header and the template line of each ranked game, whatever the total |

## Left out

- The HTTPS requests, the streaming of the response body and the XML parsing (`getBgg`, index.js:37-52), including the error thrown from the parse callback: network I/O and a foreign library. The second request is the function parameter `fetchThings` of `Report`.
- The nested shape xml2js produces (arrays of one element, `$` attribute objects): inputs are the decoded flat values. In particular, when the month has no plays the parsed object has no `play` key and `plays.play.map` throws; the model starts from a list of ids, where no plays is the empty list.
- The unary `+` conversions of `total` and `usersrated` (index.js:23, index.js:74): JavaScript number parsing, with `NaN`, fractions, and rounding above 2^53. Both arrive as integers. A count is a double, so from 2^53 (9007199254740992) on `+` rounds it, and two different counts can become the same double; they then compare equal in `a.votes - b.votes` (index.js:75), so their order can change. The model compares exact counts.
- NatToString: prints the exact decimal of every count. The program's counts are doubles: from 2^53 on, `+` rounds them and the line shows the shortest digits that read back as the same double (`2**60` prints as `1152921504606847000`, not `1152921504606846976`); from 10^21 on, it uses exponent notation. No rating count comes near 2^53.
- The `async`/`await` sequencing of `main` and the console writes: the warning and the printed lines are returned sequences.
- The request URLs (index.js:8-10): constant string building.
- PlayReduction.GameIdsFromPlaysSpec: the round trip is stated for comma-free ids and the absence of edge commas for non-empty, comma-free ids only (the service's ids are decimal numbers); for other ids only the empty case is stated.
- Presentation.GameLineRoundTrip: stated for ids without `]`, for the same reason.
