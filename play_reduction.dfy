/**
 * The play-list reducer: the object ids of a month's plays become the
 * comma-separated list of distinct game ids sent to the "thing" endpoint.
 * A JavaScript `Set` remembers its elements in insertion order, so the
 * distinct ids come out in the order of their first occurrence.
 */
module PlayReduction {

  /** No string occurs twice in `s`. */
  predicate NoDuplicates(s: seq<string>) {
    forall i, j :: 0 <= i < j < |s| ==> s[i] != s[j]
  }

  /** The position of the first occurrence of `x` in `s`. */
  function FirstIndex(s: seq<string>, x: string): (k: nat)
    requires x in s
    ensures k < |s| && s[k] == x
    ensures forall i :: 0 <= i < k ==> s[i] != x
  {
    if s[0] == x then 0 else 1 + FirstIndex(s[1..], x)
  }

  /**
   * `Set.prototype.add` on a set represented by its insertion order:
   * adding an element already present changes nothing, a new element
   * goes to the end.
   */
  function SetAdd(order: seq<string>, x: string): (r: seq<string>)
    ensures x in r
    ensures forall y :: y in r <==> y in order || y == x
    ensures x in order ==> r == order
    ensures x !in order ==> r == order + [x]
  {
    if x in order then order else order + [x]
  }

  /**
   * `Array.from(new Set(ids))`: the ids are added one by one, first to
   * last, to an empty set, and the set is read back in insertion order.
   */
  function Unique(ids: seq<string>): (r: seq<string>)
    ensures NoDuplicates(r)
    ensures forall x :: x in r <==> x in ids
    ensures |r| <= |ids|
  {
    if ids == [] then []
    else
      var init := ids[..|ids| - 1];
      assert ids == init + [ids[|ids| - 1]];
      SetAdd(Unique(init), ids[|ids| - 1])
  }

  lemma FirstIndexOfPrefix(s: seq<string>, y: string, x: string)
    requires x in s
    ensures FirstIndex(s + [y], x) == FirstIndex(s, x)
  {
    var k, k' := FirstIndex(s + [y], x), FirstIndex(s, x);
    assert forall i :: 0 <= i < |s| ==> (s + [y])[i] == s[i];
  }

  /**
   * The distinct ids appear in the order in which each first occurs in the
   * play list: an id listed earlier was played earlier.
   */
  lemma {:induction false} UniqueKeepsFirstOccurrenceOrder(ids: seq<string>)
    ensures forall i, j :: 0 <= i < j < |Unique(ids)| ==>
      FirstIndex(ids, Unique(ids)[i]) < FirstIndex(ids, Unique(ids)[j])
  {
    if ids != [] {
      var init, last := ids[..|ids| - 1], ids[|ids| - 1];
      assert ids == init + [last];
      UniqueKeepsFirstOccurrenceOrder(init);
      var prev, r := Unique(init), Unique(ids);
      forall i, j | 0 <= i < j < |r|
        ensures FirstIndex(ids, r[i]) < FirstIndex(ids, r[j])
      {
        FirstIndexOfPrefix(init, last, r[i]);
        if j < |prev| {
          FirstIndexOfPrefix(init, last, r[j]);
        } else {
          // r[j] is the newly added last id: it does not occur in init
          assert r[j] == last && last !in init;
          assert FirstIndex(ids, last) == |init|;
        }
      }
    }
  }

  /** `s` lists its elements by strictly increasing first occurrence in `ids`. */
  predicate InFirstOccurrenceOrder(ids: seq<string>, s: seq<string>)
    requires forall x :: x in s ==> x in ids
  {
    forall i, j :: 0 <= i < j < |s| ==> FirstIndex(ids, s[i]) < FirstIndex(ids, s[j])
  }

  lemma HeadComesFirst(ids: seq<string>, s: seq<string>, x: string)
    requires forall y :: y in s ==> y in ids
    requires InFirstOccurrenceOrder(ids, s)
    requires x in s
    ensures FirstIndex(ids, s[0]) <= FirstIndex(ids, x)
  {
  }

  lemma {:induction false} SameElementsSameOrder(ids: seq<string>, a: seq<string>, b: seq<string>)
    requires forall x :: x in a ==> x in ids
    requires forall x :: x in a <==> x in b
    requires NoDuplicates(a) && NoDuplicates(b)
    requires InFirstOccurrenceOrder(ids, a) && InFirstOccurrenceOrder(ids, b)
    ensures a == b
  {
    if a != [] {
      assert a[0] in b;
    }
    if b != [] {
      assert b[0] in a;
    }
    if a != [] {
      // the first elements have the same, least, first occurrence
      HeadComesFirst(ids, b, a[0]);
      HeadComesFirst(ids, a, b[0]);
      assert a[0] == ids[FirstIndex(ids, a[0])] == ids[FirstIndex(ids, b[0])] == b[0];
      forall x
        ensures x in a[1..] <==> x in b[1..]
      {
        assert x in a[1..] <==> x in a && x != a[0];
        assert x in b[1..] <==> x in b && x != b[0];
      }
      SameElementsSameOrder(ids, a[1..], b[1..]);
      assert a == [a[0]] + a[1..] && b == [b[0]] + b[1..];
    }
  }

  /**
   * The three properties of the reduction determine it: any list of
   * distinct ids that holds exactly the played ids, ordered by first
   * occurrence, is `Unique(ids)`.
   */
  lemma {:induction false} UniqueIsDetermined(ids: seq<string>, r: seq<string>)
    requires NoDuplicates(r)
    requires forall x :: x in r <==> x in ids
    requires InFirstOccurrenceOrder(ids, r)
    ensures r == Unique(ids)
  {
    UniqueKeepsFirstOccurrenceOrder(ids);
    SameElementsSameOrder(ids, r, Unique(ids));
  }

  /** `Array.prototype.join(sep)`: the parts with `sep` between neighbours. */
  function Join(parts: seq<string>, sep: char): string
  {
    if |parts| == 0 then ""
    else if |parts| == 1 then parts[0]
    else parts[0] + [sep] + Join(parts[1..], sep)
  }

  /**
   * `String.prototype.split(sep)` for a one-character separator, the
   * reading side of `Join`: the empty string splits into one empty part.
   */
  function Split(s: string, sep: char): (r: seq<string>)
    ensures |r| >= 1
  {
    if s == [] then [""]
    else
      var rest := Split(s[1..], sep);
      if s[0] == sep then [""] + rest else [[s[0]] + rest[0]] + rest[1..]
  }

  lemma {:induction false} SplitWithoutSeparator(p: string, sep: char)
    requires sep !in p
    ensures Split(p, sep) == [p]
  {
    if p != [] {
      SplitWithoutSeparator(p[1..], sep);
      assert [p[0]] + p[1..] == p;
    }
  }

  lemma {:induction false} SplitAtFirstSeparator(p: string, sep: char, t: string)
    requires sep !in p
    ensures Split(p + [sep] + t, sep) == [p] + Split(t, sep)
  {
    var s := p + [sep] + t;
    if p == [] {
      assert s[1..] == t;
    } else {
      assert s[1..] == p[1..] + [sep] + t;
      SplitAtFirstSeparator(p[1..], sep, t);
      assert [p[0]] + p[1..] == p;
    }
  }

  /**
   * Joining parts that do not contain the separator can be undone by
   * splitting: the separator occurs exactly between neighbouring parts.
   */
  lemma {:induction false} JoinThenSplit(parts: seq<string>, sep: char)
    requires |parts| >= 1
    requires forall p :: p in parts ==> sep !in p
    ensures Split(Join(parts, sep), sep) == parts
  {
    if |parts| == 1 {
      SplitWithoutSeparator(parts[0], sep);
    } else {
      JoinThenSplit(parts[1..], sep);
      SplitAtFirstSeparator(parts[0], sep, Join(parts[1..], sep));
      assert parts == [parts[0]] + parts[1..];
    }
  }

  /**
   * The joined string starts with the first part and ends with the last,
   * so non-empty parts give no leading and no trailing separator.
   */
  lemma {:induction false} JoinEdges(parts: seq<string>, sep: char)
    requires |parts| >= 1
    ensures |Join(parts, sep)| >= |parts[0]| && |Join(parts, sep)| >= |parts[|parts| - 1]|
    ensures Join(parts, sep)[..|parts[0]|] == parts[0]
    ensures Join(parts, sep)[|Join(parts, sep)| - |parts[|parts| - 1]|..] == parts[|parts| - 1]
  {
    if |parts| > 1 {
      JoinEdges(parts[1..], sep);
      var rest := Join(parts[1..], sep);
      assert Join(parts, sep) == parts[0] + ([sep] + rest);
      assert parts[1..][|parts[1..]| - 1] == parts[|parts| - 1];
    }
  }

  /**
   * `gameIdsFromPlaysObject`: the distinct object ids of the plays, in
   * first-occurrence order, joined with commas.
   */
  function GameIdsFromPlays(objectIds: seq<string>): string
  {
    Join(Unique(objectIds), ',')
  }

  /**
   * The id list sent to the second request: no plays give the empty
   * string; otherwise, for ids free of commas (the service's ids are
   * decimal numbers), the string splits back into exactly the distinct
   * ids, and when no id is empty it has no leading or trailing comma.
   */
  lemma GameIdsFromPlaysSpec(objectIds: seq<string>)
    ensures objectIds == [] ==> GameIdsFromPlays(objectIds) == ""
    ensures (forall id :: id in objectIds ==> ',' !in id) && objectIds != [] ==>
      Split(GameIdsFromPlays(objectIds), ',') == Unique(objectIds)
    ensures (forall id :: id in objectIds ==> id != "" && ',' !in id) && objectIds != [] ==>
      var r := GameIdsFromPlays(objectIds);
      r != "" && r[0] != ',' && r[|r| - 1] != ','
  {
    var ids := Unique(objectIds);
    if (forall id :: id in objectIds ==> ',' !in id) && objectIds != [] {
      assert objectIds[0] in ids;
      JoinThenSplit(ids, ',');
    }
    if (forall id :: id in objectIds ==> id != "" && ',' !in id) && objectIds != [] {
      assert objectIds[0] in ids;
      JoinEdges(ids, ',');
      var r := Join(ids, ',');
      assert ids[0] in objectIds && ids[|ids| - 1] in objectIds;
      assert ids[0] != "" && ids[|ids| - 1] != "";
      assert r[0] == ids[0][0];
      assert r[|r| - 1] == ids[|ids| - 1][|ids[|ids| - 1]| - 1];
    }
  }

  /** A game played twice is asked for once, in the order first played. */
  lemma RepeatedPlayExample()
    ensures GameIdsFromPlays(["10", "20", "10"]) == "10,20"
  {
    assert ["10", "20", "10"][..2] == ["10", "20"];
    assert ["10", "20"][..1] == ["10"];
    assert Unique(["10", "20", "10"]) == ["10", "20"];
  }
}
