/**
 * The game-stats extractor and the ranking: each item of the "thing"
 * response becomes an (id, game, votes) record, and the records are sorted
 * by ascending vote count with a stable sort, as `Array.prototype.sort` is
 * required to be.
 */
module Ranking {

  /** One item of the "thing" response, already decoded. */
  datatype Item = Item(id: string, name: string, usersRated: nat)

  /** The record built for each item: its id, its name, its rating count. */
  datatype GameVotes = GameVotes(id: string, game: string, votes: nat)

  function ToGameVotes(item: Item): GameVotes {
    GameVotes(item.id, item.name, item.usersRated)
  }

  /** `items.item.map(...)`: one record per item, in item order. */
  function ExtractRecords(items: seq<Item>): (r: seq<GameVotes>)
    ensures |r| == |items|
    ensures forall k :: 0 <= k < |items| ==> r[k] == ToGameVotes(items[k])
  {
    if items == [] then [] else [ToGameVotes(items[0])] + ExtractRecords(items[1..])
  }

  /** Non-decreasing by vote count. */
  predicate Sorted(s: seq<GameVotes>) {
    forall i, j :: 0 <= i < j < |s| ==> s[i].votes <= s[j].votes
  }

  /**
   * Inserts `x` in front of the first record with at least as many votes,
   * hence in front of every record with the same count.
   */
  function Insert(x: GameVotes, sorted: seq<GameVotes>): (r: seq<GameVotes>)
    ensures |r| == |sorted| + 1
  {
    if sorted == [] || x.votes <= sorted[0].votes then [x] + sorted
    else [sorted[0]] + Insert(x, sorted[1..])
  }

  /** Insertion adds exactly `x`. */
  lemma {:induction false} InsertAddsRecord(x: GameVotes, sorted: seq<GameVotes>)
    ensures multiset(Insert(x, sorted)) == multiset(sorted) + multiset{x}
    ensures forall e :: e in Insert(x, sorted) ==> e == x || e in sorted
  {
    if !(sorted == [] || x.votes <= sorted[0].votes) {
      InsertAddsRecord(x, sorted[1..]);
      assert sorted == [sorted[0]] + sorted[1..];
    }
  }

  /** Insertion keeps a sorted list sorted. */
  lemma {:induction false} InsertKeepsSorted(x: GameVotes, sorted: seq<GameVotes>)
    requires Sorted(sorted)
    ensures Sorted(Insert(x, sorted))
  {
    if !(sorted == [] || x.votes <= sorted[0].votes) {
      var rest := Insert(x, sorted[1..]);
      InsertKeepsSorted(x, sorted[1..]);
      InsertAddsRecord(x, sorted[1..]);
      forall j | 0 <= j < |rest|
        ensures sorted[0].votes <= rest[j].votes
      {
        assert rest[j] in rest;
        if rest[j] != x {
          var k :| 0 <= k < |sorted[1..]| && sorted[1..][k] == rest[j];
          assert sorted[k + 1] == rest[j];
        }
      }
      assert Insert(x, sorted) == [sorted[0]] + rest;
    }
  }

  /** Insertion sort on vote count, ascending. */
  function InsertionSort(s: seq<GameVotes>): (r: seq<GameVotes>)
    ensures |r| == |s|
    ensures multiset(r) == multiset(s)
    ensures Sorted(r)
  {
    if s == [] then []
    else
      assert s == [s[0]] + s[1..];
      InsertAddsRecord(s[0], InsertionSort(s[1..]));
      InsertKeepsSorted(s[0], InsertionSort(s[1..]));
      Insert(s[0], InsertionSort(s[1..]))
  }

  /** `gamesAndVotesFromItemsObject`: the records of the items, ranked. */
  function RankGames(items: seq<Item>): seq<GameVotes> {
    InsertionSort(ExtractRecords(items))
  }

  /** The records of `s` with exactly `v` votes, in their order in `s`. */
  function WithVotes(s: seq<GameVotes>, v: nat): seq<GameVotes>
  {
    if s == [] then []
    else (if s[0].votes == v then [s[0]] else []) + WithVotes(s[1..], v)
  }

  lemma {:induction false} WithVotesMembers(s: seq<GameVotes>, v: nat)
    ensures forall e :: e in WithVotes(s, v) ==> e in s && e.votes == v
  {
    if s != [] {
      WithVotesMembers(s[1..], v);
    }
  }

  /**
   * `output` keeps the relative order of the records of `input` that tie on
   * votes: for every count, the records with that count come in the same
   * order in both.
   */
  ghost predicate KeepsTieOrder(input: seq<GameVotes>, output: seq<GameVotes>) {
    forall v: nat :: WithVotes(output, v) == WithVotes(input, v)
  }

  lemma {:induction false} InsertWithVotes(x: GameVotes, sorted: seq<GameVotes>, v: nat)
    ensures WithVotes(Insert(x, sorted), v) ==
      (if x.votes == v then [x] else []) + WithVotes(sorted, v)
  {
    var r := Insert(x, sorted);
    if sorted == [] || x.votes <= sorted[0].votes {
      assert r == [x] + sorted;
      assert r[1..] == sorted;
    } else {
      var rest := Insert(x, sorted[1..]);
      assert r == [sorted[0]] + rest;
      assert r[1..] == rest;
      InsertWithVotes(x, sorted[1..], v);
      var head := if sorted[0].votes == v then [sorted[0]] else [];
      assert WithVotes(r, v) == head + WithVotes(rest, v);
      assert WithVotes(sorted, v) == head + WithVotes(sorted[1..], v);
      // the skipped record has fewer votes than x, so at most one of them counts
      assert x.votes == v ==> head == [];
    }
  }

  /** The insertion sort is stable. */
  lemma {:induction false} InsertionSortKeepsTieOrder(s: seq<GameVotes>)
    ensures KeepsTieOrder(s, InsertionSort(s))
  {
    if s != [] {
      InsertionSortKeepsTieOrder(s[1..]);
      forall v: nat
        ensures WithVotes(InsertionSort(s), v) == WithVotes(s, v)
      {
        InsertWithVotes(s[0], InsertionSort(s[1..]), v);
      }
    }
  }

  /**
   * The ranking: as many records as items, the same records, ordered by
   * ascending vote count, and records with equal votes in item order.
   */
  lemma RankGamesSpec(items: seq<Item>)
    ensures |RankGames(items)| == |items|
    ensures multiset(RankGames(items)) == multiset(ExtractRecords(items))
    ensures Sorted(RankGames(items))
    ensures KeepsTieOrder(ExtractRecords(items), RankGames(items))
  {
    InsertionSortKeepsTieOrder(ExtractRecords(items));
  }

  lemma HeadHasFewestVotes(s: seq<GameVotes>, x: GameVotes)
    requires Sorted(s) && x in s
    ensures s[0].votes <= x.votes
  {
  }

  /**
   * A stable ascending sort has exactly one possible result: two sorted
   * lists that keep the same tie order are equal. So `RankGames` is what
   * every conforming `Array.prototype.sort` returns with this comparator.
   */
  lemma {:induction false} StableSortIsUnique(a: seq<GameVotes>, b: seq<GameVotes>)
    requires Sorted(a) && Sorted(b)
    requires KeepsTieOrder(a, b)
    ensures a == b
  {
    if a != [] {
      assert WithVotes(b, a[0].votes) == WithVotes(a, a[0].votes);
      assert a[0] in WithVotes(b, a[0].votes);
      WithVotesMembers(b, a[0].votes);
    }
    if b != [] {
      assert WithVotes(b, b[0].votes) == WithVotes(a, b[0].votes);
      assert b[0] in WithVotes(a, b[0].votes);
      WithVotesMembers(a, b[0].votes);
    }
    if a != [] {
      HeadHasFewestVotes(b, a[0]);
      HeadHasFewestVotes(a, b[0]);
      var v := a[0].votes;
      assert WithVotes(a, v) == [a[0]] + WithVotes(a[1..], v);
      assert WithVotes(b, v) == [b[0]] + WithVotes(b[1..], v);
      assert WithVotes(a, v) == WithVotes(b, v);
      assert a[0] == WithVotes(a, v)[0] == WithVotes(b, v)[0] == b[0];
      forall w: nat
        ensures WithVotes(b[1..], w) == WithVotes(a[1..], w)
      {
        assert WithVotes(a, w) == WithVotes(b, w);
        if w == v {
          assert WithVotes(a, w)[1..] == WithVotes(a[1..], w);
          assert WithVotes(b, w)[1..] == WithVotes(b[1..], w);
        } else {
          assert WithVotes(a, w) == WithVotes(a[1..], w);
          assert WithVotes(b, w) == WithVotes(b[1..], w);
        }
      }
      StableSortIsUnique(a[1..], b[1..]);
      assert a == [a[0]] + a[1..] && b == [b[0]] + b[1..];
    }
  }

  /**
   * Whatever stable sort the engine uses, its result is `RankGames`: any
   * sorted list that keeps the tie order of the records is the ranking.
   */
  lemma AnyStableSortIsRankGames(items: seq<Item>, e: seq<GameVotes>)
    requires Sorted(e) && KeepsTieOrder(ExtractRecords(items), e)
    ensures e == RankGames(items)
  {
    RankGamesSpec(items);
    StableSortIsUnique(RankGames(items), e);
  }

  /** Two games come out fewest votes first. */
  lemma TwoGamesExample()
    ensures RankGames([Item("10", "A", 500), Item("20", "B", 50)]) ==
      [GameVotes("20", "B", 50), GameVotes("10", "A", 500)]
  {
    var a, b := GameVotes("10", "A", 500), GameVotes("20", "B", 50);
    assert ExtractRecords([Item("10", "A", 500), Item("20", "B", 50)]) == [a, b];
    assert [a, b][1..] == [b];
    assert InsertionSort([b]) == [b];
  }
}
