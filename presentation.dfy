/**
 * The presentation of the ranking: a header naming the user and the date
 * range, then one forum-markup line per game, in ranking order. The
 * console is modelled as the returned sequence of lines.
 */
module Presentation {
  import opened Wrappers
  import opened Ranking

  const UserName := "bootleby"
  const StartDate := "2018-04-01"
  const EndDate := "2018-04-30"

  /** The pieces of the per-game template around the id, the name and the count. */
  const ThingOpen := "[thing="
  const ThingClose := "[/thing] [size=6]("
  const VotesClose := " votes)[/size]"

  function HeaderLine(): string {
    UserName + "'s plays for " + StartDate + " - " + EndDate
  }

  predicate IsDigit(c: char) {
    '0' <= c <= '9'
  }

  predicate AllDigits(s: string) {
    forall i :: 0 <= i < |s| ==> IsDigit(s[i])
  }

  function DigitChar(d: nat): (c: char)
    requires d < 10
    ensures IsDigit(c)
  {
    ('0' as int + d) as char
  }

  function DigitValue(c: char): (d: nat)
    requires IsDigit(c)
    ensures d < 10 && DigitChar(d) == c
  {
    c as int - '0' as int
  }

  /**
   * The decimal text of a vote count, as a template literal writes an
   * integral number: at least one digit and no leading zero.
   */
  function NatToString(n: nat): (s: string)
    ensures |s| >= 1 && AllDigits(s)
    ensures s[0] == '0' ==> n == 0
  {
    if n < 10 then [DigitChar(n)] else NatToString(n / 10) + [DigitChar(n % 10)]
  }

  /** The value of a string of decimal digits. */
  function ParseNat(s: string): nat
    requires AllDigits(s)
  {
    if s == [] then 0 else 10 * ParseNat(s[..|s| - 1]) + DigitValue(s[|s| - 1])
  }

  /** Reading the printed count back gives the count. */
  lemma {:induction false} ParseNatToString(n: nat)
    ensures ParseNat(NatToString(n)) == n
  {
    var s := NatToString(n);
    if n >= 10 {
      assert s[..|s| - 1] == NatToString(n / 10);
      ParseNatToString(n / 10);
    }
  }

  /** The line printed for one game. */
  function GameLine(g: GameVotes): string {
    ThingOpen + g.id + "]" + g.game + ThingClose + NatToString(g.votes) + VotesClose
  }

  /** `s` without the prefix `p`, if `s` starts with `p`. */
  function StripPrefix(s: string, p: string): (r: Option<string>)
    ensures r.Some? ==> s == p + r.value
  {
    if |p| <= |s| && s[..|p|] == p then Some(s[|p|..]) else None
  }

  /** `s` without the suffix `p`, if `s` ends with `p`. */
  function StripSuffix(s: string, p: string): (r: Option<string>)
    ensures r.Some? ==> s == r.value + p
  {
    if |p| <= |s| && s[|s| - |p|..] == p then Some(s[..|s| - |p|]) else None
  }

  lemma StripPrefixOf(p: string, t: string)
    ensures StripPrefix(p + t, p) == Some(t)
  {
  }

  lemma StripSuffixOf(t: string, p: string)
    ensures StripSuffix(t + p, p) == Some(t)
  {
  }

  /** The part of `s` before its first `c` and the part after it, if `s` holds a `c`. */
  function SplitAtFirst(s: string, c: char): (r: Option<(string, string)>)
    ensures r.Some? ==> c !in r.value.0 && s == r.value.0 + [c] + r.value.1
    ensures r.None? ==> c !in s
  {
    if s == [] then None
    else if s[0] == c then Some(([], s[1..]))
    else match SplitAtFirst(s[1..], c)
      case None => None
      case Some((before, after)) => Some(([s[0]] + before, after))
  }

  lemma SplitAtFirstOf(before: string, c: char, after: string)
    requires c !in before
    ensures SplitAtFirst(before + [c] + after, c) == Some((before, after))
  {
    var r := SplitAtFirst(before + [c] + after, c);
    var b', a' := r.value.0, r.value.1;
    // both splits put the first `c` at the same place
    assert before + [c] + after == b' + [c] + a';
    assert forall i :: 0 <= i < |before| ==> (before + [c] + after)[i] == before[i];
    assert forall i :: 0 <= i < |b'| ==> (b' + [c] + a')[i] == b'[i];
    assert (before + [c] + after)[|before|] == c == (b' + [c] + a')[|b'|];
    assert |b'| == |before|;
    assert (before + [c] + after)[..|before|] == before && (b' + [c] + a')[..|b'|] == b';
    assert (before + [c] + after)[|before| + 1..] == after && (b' + [c] + a')[|b'| + 1..] == a';
  }

  /** `s` cut in front of its run of trailing decimal digits. */
  function SplitTrailingDigits(s: string): (r: (string, string))
    ensures s == r.0 + r.1 && AllDigits(r.1)
    ensures r.0 != [] ==> !IsDigit(r.0[|r.0| - 1])
  {
    if s == [] || !IsDigit(s[|s| - 1]) then (s, [])
    else
      var (pre, digits) := SplitTrailingDigits(s[..|s| - 1]);
      assert s == pre + (digits + [s[|s| - 1]]);
      (pre, digits + [s[|s| - 1]])
  }

  lemma {:induction false} SplitTrailingDigitsOf(pre: string, digits: string)
    requires pre != [] && !IsDigit(pre[|pre| - 1])
    requires AllDigits(digits)
    ensures SplitTrailingDigits(pre + digits) == (pre, digits)
  {
    var s := pre + digits;
    if digits != [] {
      var init := digits[..|digits| - 1];
      assert s[..|s| - 1] == pre + init;
      SplitTrailingDigitsOf(pre, init);
      assert init + [s[|s| - 1]] == digits;
    } else {
      assert s == pre;
    }
  }

  /**
   * Reads a game line back into its record: the id runs to the first `]`,
   * the count is the run of digits in front of the closing template.
   */
  function ParseGameLine(line: string): Option<GameVotes> {
    match StripPrefix(line, ThingOpen)
    case None => None
    case Some(body) =>
      match SplitAtFirst(body, ']')
      case None => None
      case Some((id, rest)) =>
        match StripSuffix(rest, VotesClose)
        case None => None
        case Some(mid) =>
          var (pre, digits) := SplitTrailingDigits(mid);
          if digits == [] then None
          else
            match StripSuffix(pre, ThingClose)
            case None => None
            case Some(game) => Some(GameVotes(id, game, ParseNat(digits)))
  }

  /**
   * Each game line carries its record whole: for an id without `]` (the
   * service's ids are decimal numbers) the line reads back as the record,
   * so the id, the name and the count are all printed and can be told apart.
   */
  lemma GameLineRoundTrip(g: GameVotes)
    requires ']' !in g.id
    ensures ParseGameLine(GameLine(g)) == Some(g)
  {
    var digits := NatToString(g.votes);
    var pre := g.game + ThingClose;
    var mid := pre + digits;
    var rest := mid + VotesClose;
    var body := g.id + "]" + rest;
    assert GameLine(g) == ThingOpen + body;
    StripPrefixOf(ThingOpen, body);
    SplitAtFirstOf(g.id, ']', rest);
    StripSuffixOf(mid, VotesClose);
    SplitTrailingDigitsOf(pre, digits);
    StripSuffixOf(g.game, ThingClose);
    ParseNatToString(g.votes);
  }

  lemma FiftyPrints()
    ensures NatToString(50) == "50"
  {
    assert NatToString(50) == NatToString(5) + [DigitChar(0)];
  }

  /** The template filled with id 20, name B and count 50, one piece at a time. */
  lemma FilledTemplate()
    ensures ThingOpen + "20" + "]" + "B" + ThingClose + "50" + VotesClose ==
      "[thing=20]B[/thing] [size=6](50 votes)[/size]"
  {
    assert ThingOpen + "20" == "[thing=20";
    assert "[thing=20" + "]" == "[thing=20]";
    assert "[thing=20]" + "B" == "[thing=20]B";
    assert "[thing=20]B" + ThingClose == "[thing=20]B[/thing] [size=6](";
    assert "[thing=20]B[/thing] [size=6](" + "50" == "[thing=20]B[/thing] [size=6](50";
    assert "[thing=20]B[/thing] [size=6](50" + VotesClose == "[thing=20]B[/thing] [size=6](50 votes)[/size]";
  }

  /** The header and the line of game 20, named B, with 50 votes, as printed. */
  lemma DisplayExample()
    ensures HeaderLine() == "bootleby's plays for 2018-04-01 - 2018-04-30"
    ensures GameLine(GameVotes("20", "B", 50)) == "[thing=20]B[/thing] [size=6](50 votes)[/size]"
  {
    FiftyPrints();
    FilledTemplate();
  }

  /**
   * `displayGames`: the header, then the line of each game in list order,
   * appended one at a time as `forEach` logs them.
   */
  method DisplayGames(games: seq<GameVotes>) returns (lines: seq<string>)
    ensures |lines| == |games| + 1
    ensures lines[0] == HeaderLine()
    ensures forall k :: 0 <= k < |games| ==> lines[k + 1] == GameLine(games[k])
  {
    lines := [HeaderLine()];
    for k := 0 to |games|
      invariant |lines| == k + 1
      invariant lines[0] == HeaderLine()
      invariant forall i :: 0 <= i < k ==> lines[i + 1] == GameLine(games[i])
    {
      lines := lines + [GameLine(games[k])];
    }
  }
}
