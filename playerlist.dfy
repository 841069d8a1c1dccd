/**
 * `sortAreas(playerList, matcher)`: every player's area label is parsed by the
 * matcher into an area, a number and an `other` tag; players are grouped by area in
 * order of first appearance; each group is sorted by number, highest first, then by
 * tag rank; and the groups are sorted by area rank.
 */
module PlayerList {
  import opened Wrappers
  import opened JsNumber
  import opened Text
  import opened Ranking
  import opened Matching
  import opened Buckets
  import Sorting

  /** `[name, areaLabel, flag, flag]`; only the label is looked at. */
  datatype Player = Player(name: string, areaLabel: string, flagA: bool, flagB: bool)

  /** `matches`: what the label says about a player's place in the list. */
  datatype Matches = Matches(area: string, number: Num, other: string)

  /** `{ player, matches }`. */
  datatype Entry = Entry(player: Player, matches: Matches)

  datatype Error = TypeError(message: string)

  const MissingGroups: Error :=
    TypeError("Expected matcher regex to have capturing groups area, number and other")

  /** The area given to a label the matcher does not match. */
  const Unmatched: string := "???"

  // ---------------------------------------------------------------------------
  // Parsing (the `playerList.map` callback).

  /** `matches` for one label, or the `TypeError` thrown for a match without groups. */
  function ParseLabel(matcher: AreaMatcher, s: string): (r: Result<Matches, Error>)
    ensures r.Failure? <==> matcher.exec(s) == Matched(None)
    ensures r.Failure? ==> r.error == MissingGroups
    ensures matcher.exec(s) == NoMatch ==> r == Success(Matches(Unmatched, Finite(GetNumber(s)), ""))
    ensures matcher.exec(s).Matched? && matcher.exec(s).groups.Some? ==>
      var g := matcher.exec(s).groups.value;
      && r.Success? && r.value.area == g.area
      && (r.value.number == NegInfinity <==> g.number == None || g.number == Some(""))
      && (r.value.number != NegInfinity ==> r.value.number == Finite(DecimalValue(g.number.value)))
      && (r.value.other == "" <==> g.other == None || g.other == Some(""))
      && (g.other.Some? ==> r.value.other == g.other.value)
  {
    match matcher.exec(s)
    case NoMatch => Success(Matches(Unmatched, Finite(GetNumber(s)), ""))
    case Matched(None) => Failure(MissingGroups)
    case Matched(Some(g)) =>
      var number := if g.number.None? || g.number.value == "" then NegInfinity else Finite(DecimalValue(g.number.value));
      Success(Matches(g.area, number, g.other.GetOr("")))
  }

  /** `playerList.map(...)`: the entries in player order, or the first error thrown. */
  function MatchAll(matcher: AreaMatcher, players: seq<Player>): (r: Result<seq<Entry>, Error>)
    ensures r.Failure? <==> exists i | 0 <= i < |players| :: matcher.exec(players[i].areaLabel) == Matched(None)
    ensures r.Failure? ==> r.error == MissingGroups
    ensures r.Success? ==>
      && |r.value| == |players|
      && forall i | 0 <= i < |players| :: r.value[i] == Entry(players[i], ParseLabel(matcher, players[i].areaLabel).value)
  {
    if players == [] then Success([])
    else
      var head := ParseLabel(matcher, players[0].areaLabel);
      if head.Failure? then Failure(head.error)
      else
        var tail := MatchAll(matcher, players[1..]);
        assert forall i | 1 <= i < |players| :: players[1..][i - 1] == players[i];
        if tail.Failure? then Failure(tail.error)
        else Success([Entry(players[0], head.value)] + tail.value)
  }

  function PlayerOf(e: Entry): Player {
    e.player
  }

  function AreaOf(e: Entry): string {
    e.matches.area
  }

  // ---------------------------------------------------------------------------
  // Grouping (the `matched.forEach` loop).

  function AreasOf(es: seq<Entry>): seq<string> {
    Map(AreaOf, es)
  }

  /** The entries of area `a`, in their order in `es`. */
  function InArea(es: seq<Entry>, a: string): (r: seq<Entry>)
    ensures forall x :: x in r <==> x in es && AreaOf(x) == a
  {
    if es == [] then []
    else
      var init := es[..|es| - 1];
      var last := es[|es| - 1];
      assert es == init + [last];
      InArea(init, a) + (if AreaOf(last) == a then [last] else [])
  }

  /** The buckets' areas are exactly the areas that occur in `es`. */
  ghost predicate KeysAreAreas(g: seq<Bucket<Entry>>, es: seq<Entry>) {
    forall a :: a in Keys(g) <==> a in AreasOf(es)
  }

  /** Each bucket holds the entries of its area, in their order in `es`. */
  ghost predicate BucketsHold(g: seq<Bucket<Entry>>, es: seq<Entry>) {
    forall i | 0 <= i < |g| :: g[i].members == InArea(es, g[i].area)
  }

  /** The buckets go in the order in which their areas first occur in `es`. */
  ghost predicate FirstSeenOrder(g: seq<Bucket<Entry>>, es: seq<Entry>) {
    forall i, j | 0 <= i < j < |g| :: IndexOf(AreasOf(es), g[i].area) < IndexOf(AreasOf(es), g[j].area)
  }

  /**
   * `g` is the grouping of `es` by area: one bucket per area of `es`, the buckets in
   * order of their area's first appearance, each holding that area's entries in
   * their order in `es`. Together the buckets hold exactly the entries of `es`.
   */
  ghost predicate GroupedBy(g: seq<Bucket<Entry>>, es: seq<Entry>) {
    && DistinctKeys(g)
    && KeysAreAreas(g, es)
    && BucketsHold(g, es)
    && FirstSeenOrder(g, es)
    && multiset(Flatten(g)) == multiset(es)
  }

  lemma AreasOfSnoc(es: seq<Entry>, e: Entry)
    ensures AreasOf(es + [e]) == AreasOf(es) + [AreaOf(e)]
  {
  }

  lemma InAreaSnoc(es: seq<Entry>, e: Entry, a: string)
    ensures InArea(es + [e], a) == InArea(es, a) + (if AreaOf(e) == a then [e] else [])
  {
    assert (es + [e])[..|es|] == es;
  }

  lemma IndexOfSnoc(s: seq<string>, x: string, y: string)
    ensures y in s ==> IndexOf(s + [x], y) == IndexOf(s, y)
    ensures y !in s && y == x ==> IndexOf(s + [x], y) == |s|
  {
    if y in s {
      var i := IndexOf(s, y);
      assert (s + [x])[..i] == s[..i];
    } else if y == x {
      assert (s + [x])[..|s|] == s;
    }
  }

  /** First positions keep their order when one more area is seen. */
  lemma OrderSnoc(s: seq<string>, x: string, u: string, v: string)
    requires u in s
    requires (v in s && IndexOf(s, u) < IndexOf(s, v)) || (v == x && x !in s)
    ensures IndexOf(s + [x], u) < IndexOf(s + [x], v)
  {
    IndexOfSnoc(s, x, u);
    IndexOfSnoc(s, x, v);
  }

  lemma InAreaOfAbsent(es: seq<Entry>, a: string)
    requires a !in AreasOf(es)
    ensures InArea(es, a) == []
  {
  }

  lemma NewKeys(g: seq<Bucket<Entry>>, es: seq<Entry>, e: Entry)
    requires KeysAreAreas(g, es)
    ensures KeysAreAreas(g + [Bucket(AreaOf(e), [e])], es + [e])
  {
    AreasOfSnoc(es, e);
    assert Keys(g + [Bucket(AreaOf(e), [e])]) == Keys(g) + [AreaOf(e)];
  }

  lemma NewBuckets(g: seq<Bucket<Entry>>, es: seq<Entry>, e: Entry)
    requires BucketsHold(g, es) && KeysAreAreas(g, es) && AreaOf(e) !in Keys(g)
    ensures BucketsHold(g + [Bucket(AreaOf(e), [e])], es + [e])
  {
    var g' := g + [Bucket(AreaOf(e), [e])];
    forall i | 0 <= i < |g'| ensures g'[i].members == InArea(es + [e], g'[i].area) {
      InAreaSnoc(es, e, g'[i].area);
      if i == |g| {
        InAreaOfAbsent(es, AreaOf(e));
      } else {
        assert g[i].area in Keys(g);
      }
    }
  }

  lemma NewOrder(g: seq<Bucket<Entry>>, es: seq<Entry>, e: Entry)
    requires FirstSeenOrder(g, es) && KeysAreAreas(g, es) && AreaOf(e) !in Keys(g)
    ensures FirstSeenOrder(g + [Bucket(AreaOf(e), [e])], es + [e])
  {
    var a := AreaOf(e);
    var g' := g + [Bucket(a, [e])];
    var s := AreasOf(es);
    AreasOfSnoc(es, e);
    forall i, j | 0 <= i < j < |g'|
      ensures IndexOf(s + [a], g'[i].area) < IndexOf(s + [a], g'[j].area)
    {
      assert g[i].area in Keys(g);
      if j < |g| {
        assert g[j].area in Keys(g);
        OrderSnoc(s, a, g[i].area, g[j].area);
      } else {
        OrderSnoc(s, a, g[i].area, a);
      }
    }
  }

  /** An entry of a new area opens a new bucket at the end. */
  lemma GroupNew(g: seq<Bucket<Entry>>, es: seq<Entry>, e: Entry)
    requires GroupedBy(g, es) && AreaOf(e) !in Keys(g)
    ensures GroupedBy(g + [Bucket(AreaOf(e), [e])], es + [e])
  {
    NewKeys(g, es, e);
    NewBuckets(g, es, e);
    NewOrder(g, es, e);
    FlattenSnoc(g, Bucket(AreaOf(e), [e]));
  }

  lemma PushKeys(g: seq<Bucket<Entry>>, es: seq<Entry>, e: Entry, j: nat)
    requires KeysAreAreas(g, es) && j < |g| && g[j].area == AreaOf(e)
    ensures KeysAreAreas(g[j := Bucket(AreaOf(e), g[j].members + [e])], es + [e])
  {
    AreasOfSnoc(es, e);
    assert AreaOf(e) in Keys(g);
    assert Keys(g[j := Bucket(AreaOf(e), g[j].members + [e])]) == Keys(g);
  }

  lemma PushBuckets(g: seq<Bucket<Entry>>, es: seq<Entry>, e: Entry, j: nat)
    requires BucketsHold(g, es) && DistinctKeys(g) && j < |g| && g[j].area == AreaOf(e)
    ensures BucketsHold(g[j := Bucket(AreaOf(e), g[j].members + [e])], es + [e])
  {
    var g' := g[j := Bucket(AreaOf(e), g[j].members + [e])];
    forall i | 0 <= i < |g'| ensures g'[i].members == InArea(es + [e], g'[i].area) {
      InAreaSnoc(es, e, g'[i].area);
    }
  }

  lemma PushOrder(g: seq<Bucket<Entry>>, es: seq<Entry>, e: Entry, j: nat)
    requires FirstSeenOrder(g, es) && KeysAreAreas(g, es) && j < |g| && g[j].area == AreaOf(e)
    ensures FirstSeenOrder(g[j := Bucket(AreaOf(e), g[j].members + [e])], es + [e])
  {
    var a := AreaOf(e);
    var g' := g[j := Bucket(a, g[j].members + [e])];
    var s := AreasOf(es);
    AreasOfSnoc(es, e);
    forall i, k | 0 <= i < k < |g'|
      ensures IndexOf(s + [a], g'[i].area) < IndexOf(s + [a], g'[k].area)
    {
      assert g[i].area in Keys(g) && g[k].area in Keys(g);
      OrderSnoc(s, a, g[i].area, g[k].area);
    }
  }

  /** An entry of a known area goes at the end of that area's bucket. */
  lemma GroupPush(g: seq<Bucket<Entry>>, es: seq<Entry>, e: Entry, j: nat)
    requires GroupedBy(g, es) && j < |g| && g[j].area == AreaOf(e)
    ensures GroupedBy(g[j := Bucket(AreaOf(e), g[j].members + [e])], es + [e])
  {
    PushKeys(g, es, e, j);
    PushBuckets(g, es, e, j);
    PushOrder(g, es, e, j);
    FlattenPush(g, j, e);
  }

  /** The grouping of a sequence is the grouping of any sequence equal to it. */
  lemma GroupedBySame(g: seq<Bucket<Entry>>, es: seq<Entry>, es': seq<Entry>)
    requires GroupedBy(g, es) && es == es'
    ensures GroupedBy(g, es')
  {
  }

  lemma PrefixSnoc(matched: seq<Entry>, k: nat)
    requires k < |matched|
    ensures matched[..k + 1] == matched[..k] + [matched[k]]
  {
  }

  /** The grouping of `matched[..k + 1]` when entry `k` opens a new bucket. */
  lemma GroupNewAt(g: seq<Bucket<Entry>>, matched: seq<Entry>, k: nat)
    requires k < |matched| && GroupedBy(g, matched[..k]) && AreaOf(matched[k]) !in Keys(g)
    ensures GroupedBy(g + [Bucket(AreaOf(matched[k]), [matched[k]])], matched[..k + 1])
  {
    PrefixSnoc(matched, k);
    GroupNew(g, matched[..k], matched[k]);
    GroupedBySame(g + [Bucket(AreaOf(matched[k]), [matched[k]])], matched[..k] + [matched[k]], matched[..k + 1]);
  }

  /** The grouping of `matched[..k + 1]` when entry `k` joins bucket `j`. */
  lemma GroupPushAt(g: seq<Bucket<Entry>>, matched: seq<Entry>, k: nat, j: nat)
    requires k < |matched| && GroupedBy(g, matched[..k]) && j < |g| && g[j].area == AreaOf(matched[k])
    ensures GroupedBy(g[j := Bucket(AreaOf(matched[k]), g[j].members + [matched[k]])], matched[..k + 1])
  {
    PrefixSnoc(matched, k);
    GroupPush(g, matched[..k], matched[k], j);
    GroupedBySame(g[j := Bucket(AreaOf(matched[k]), g[j].members + [matched[k]])], matched[..k] + [matched[k]], matched[..k + 1]);
  }

  /** The `forEach` over `matched`: `find` the area's bucket, then push or open one. */
  method GroupByArea(matched: seq<Entry>) returns (grouped: seq<Bucket<Entry>>)
    ensures GroupedBy(grouped, matched)
  {
    grouped := [];
    for k := 0 to |matched|
      invariant GroupedBy(grouped, matched[..k])
    {
      var e := matched[k];
      var area := e.matches.area;
      var j := IndexOf(Keys(grouped), area);
      if j == -1 {
        GroupNewAt(grouped, matched, k);
        grouped := grouped + [Bucket(area, [e])];
      } else {
        GroupPushAt(grouped, matched, k, j);
        grouped := grouped[j := Bucket(area, grouped[j].members + [e])];
      }
    }
    assert matched[..|matched|] == matched;
  }

  // ---------------------------------------------------------------------------
  // Sorting inside a bucket.

  /**
   * The comparator of the bucket sort: equal numbers fall back to the rank of the
   * `other` tags, otherwise `b.number - a.number`, so higher numbers go first.
   */
  function EntryCompare(a: Matches, b: Matches, other: seq<string>): Num {
    if a.number == b.number then SortWithArray(a.other, b.other, other) else Sub(b.number, a.number)
  }

  /** The intended bucket order: higher number first, then the tag that ranks first. */
  ghost predicate EntryBefore(other: seq<string>, a: Matches, b: Matches) {
    || Less(b.number, a.number)
    || (a.number == b.number && Precedes(other, a.other, b.other))
  }

  /** The bucket comparator as the sort consumes it. */
  function EntryOrder(other: seq<string>): (Entry, Entry) -> int {
    (x: Entry, y: Entry) => Sign(EntryCompare(x.matches, y.matches, other))
  }

  lemma EntryCompareMeaning(a: Matches, b: Matches, other: seq<string>)
    ensures EntryCompare(a, b, other) == Finite(0) <==> a.number == b.number && a.other == b.other
    ensures Less(EntryCompare(a, b, other), Finite(0)) <==> EntryBefore(other, a, b)
    ensures Less(Finite(0), EntryCompare(a, b, other)) <==> EntryBefore(other, b, a)
  {
    SortWithArrayMeaning(a.other, b.other, other);
    LessIsStrictTotalOrder(a.number, b.number, a.number);
  }

  lemma EntryOrderConsistent(other: seq<string>)
    ensures Sorting.Consistent(EntryOrder(other))
  {
    var cmp := EntryOrder(other);
    forall x, y ensures cmp(x, y) < 0 <==> cmp(y, x) > 0 {
      EntryCompareMeaning(x.matches, y.matches, other);
      EntryCompareMeaning(y.matches, x.matches, other);
    }
    forall x, y, z | cmp(x, y) <= 0 && cmp(y, z) <= 0 ensures cmp(x, z) <= 0 {
      var a, b, c := x.matches, y.matches, z.matches;
      EntryCompareMeaning(a, b, other);
      EntryCompareMeaning(b, c, other);
      EntryCompareMeaning(a, c, other);
      LessIsStrictTotalOrder(a.number, b.number, c.number);
      LessIsStrictTotalOrder(c.number, b.number, a.number);
      PrecedesIsStrictTotalOrder(other, a.other, b.other, c.other);
    }
  }

  /** An entry without a number (`-Infinity`) goes after every entry with one. */
  lemma UnnumberedLast(x: Entry, y: Entry, other: seq<string>)
    requires x.matches.number.Finite? && y.matches.number == NegInfinity
    ensures EntryOrder(other)(x, y) < 0 && EntryOrder(other)(y, x) > 0
  {
    EntryCompareMeaning(x.matches, y.matches, other);
    EntryCompareMeaning(y.matches, x.matches, other);
  }

  /**
   * A sorted bucket: each entry goes before every later one or ties with it (same
   * number and same tag); it is a permutation of the bucket; tied entries keep their
   * order; and these facts determine it.
   */
  lemma BucketSorted(xs: seq<Entry>, other: seq<string>)
    ensures var r := Sorting.Sort(xs, EntryOrder(other));
      && (forall i, j | 0 <= i < j < |r| ::
            || EntryBefore(other, r[i].matches, r[j].matches)
            || (r[i].matches.number == r[j].matches.number && r[i].matches.other == r[j].matches.other))
      && multiset(r) == multiset(xs)
      && Sorting.StableFor(r, xs, EntryOrder(other))
  {
    var cmp := EntryOrder(other);
    EntryOrderConsistent(other);
    Sorting.IsStableSort(xs, cmp);
    var r := Sorting.Sort(xs, cmp);
    forall i, j | 0 <= i < j < |r|
      ensures || EntryBefore(other, r[i].matches, r[j].matches)
              || (r[i].matches.number == r[j].matches.number && r[i].matches.other == r[j].matches.other)
    {
      assert cmp(r[i], r[j]) <= 0;
      EntryCompareMeaning(r[i].matches, r[j].matches, other);
    }
  }

  /** The `for` loop over `grouped`: each bucket's entries are sorted in place. */
  method SortBuckets(grouped: seq<Bucket<Entry>>, other: seq<string>) returns (sorted: seq<Bucket<Entry>>)
    ensures |sorted| == |grouped|
    ensures forall i | 0 <= i < |grouped| ::
      sorted[i] == Bucket(grouped[i].area, Sorting.Sort(grouped[i].members, EntryOrder(other)))
  {
    sorted := grouped;
    for i := 0 to |grouped|
      invariant |sorted| == |grouped|
      invariant forall j | 0 <= j < i ::
        sorted[j] == Bucket(grouped[j].area, Sorting.Sort(grouped[j].members, EntryOrder(other)))
      invariant forall j | i <= j < |grouped| :: sorted[j] == grouped[j]
    {
      sorted := sorted[i := Bucket(sorted[i].area, Sorting.Sort(sorted[i].members, EntryOrder(other)))];
    }
  }

  // ---------------------------------------------------------------------------
  // The result and its sort by area.

  function PlayersOf(b: Bucket<Entry>): Bucket<Player> {
    Bucket(b.area, Map(PlayerOf, b.members))
  }

  /** `grouped.map(...)`: each bucket's entries replaced by their players. */
  function ToPlayers(bs: seq<Bucket<Entry>>): seq<Bucket<Player>> {
    Map(PlayersOf, bs)
  }

  /** The comparator of the final sort: `sortWithArray` on the areas. */
  function BucketOrder(areas: seq<string>): (Bucket<Player>, Bucket<Player>) -> int {
    (x: Bucket<Player>, y: Bucket<Player>) => Sign(SortWithArray(x.area, y.area, areas))
  }

  lemma BucketOrderConsistent(areas: seq<string>)
    ensures Sorting.Consistent(BucketOrder(areas))
  {
    PriorityOrderConsistent(areas);
    var cmp := BucketOrder(areas);
    var p := PriorityOrder(areas);
    assert forall x, y :: cmp(x, y) == p(x.area, y.area);
    forall x, y, z | cmp(x, y) <= 0 && cmp(y, z) <= 0 ensures cmp(x, z) <= 0 {
      assert p(x.area, y.area) <= 0 && p(y.area, z.area) <= 0;
    }
  }

  /** The result's areas are the areas of the parsed labels. */
  ghost predicate AreasCovered(r: seq<Bucket<Player>>, ms: seq<Entry>) {
    forall a :: a in Keys(r) <==> a in AreasOf(ms)
  }

  /** Each bucket holds the players of its area, in bucket order. */
  ghost predicate HoldsSorted(r: seq<Bucket<Player>>, ms: seq<Entry>, other: seq<string>) {
    forall i | 0 <= i < |r| :: r[i].members == Map(PlayerOf, Sorting.Sort(InArea(ms, r[i].area), EntryOrder(other)))
  }

  /** The buckets go in strictly increasing area rank. */
  ghost predicate OrderedByArea(r: seq<Bucket<Player>>, areas: seq<string>) {
    forall i, j | 0 <= i < j < |r| :: Precedes(areas, r[i].area, r[j].area)
  }

  /**
   * What `sortAreas` returns for the parsed entries `ms`: one bucket per area that
   * occurs, holding that area's players sorted by number and tag, the buckets sorted
   * by area rank.
   */
  ghost predicate SortedAreasOf(r: seq<Bucket<Player>>, ms: seq<Entry>, matcher: AreaMatcher) {
    && DistinctKeys(r)
    && AreasCovered(r, ms)
    && HoldsSorted(r, ms, matcher.other)
    && OrderedByArea(r, matcher.areas)
  }

  lemma {:induction false} FlattenToPlayers(bs: seq<Bucket<Entry>>)
    ensures Flatten(ToPlayers(bs)) == Map(PlayerOf, Flatten(bs))
    decreases |bs|
  {
    if bs != [] {
      assert ToPlayers(bs)[1..] == ToPlayers(bs[1..]);
      FlattenToPlayers(bs[1..]);
      MapAppend(PlayerOf, bs[0].members, Flatten(bs[1..]));
    }
  }

  /** `sorted` is `grouped` with each bucket sorted, as the bucket loop leaves it. */
  ghost predicate EachSorted(sorted: seq<Bucket<Entry>>, grouped: seq<Bucket<Entry>>, other: seq<string>) {
    && |sorted| == |grouped|
    && forall i | 0 <= i < |grouped| ::
         sorted[i] == Bucket(grouped[i].area, Sorting.Sort(grouped[i].members, EntryOrder(other)))
  }

  lemma BeforeSortKeys(ms: seq<Entry>, grouped: seq<Bucket<Entry>>, sorted: seq<Bucket<Entry>>, other: seq<string>)
    requires DistinctKeys(grouped) && KeysAreAreas(grouped, ms) && EachSorted(sorted, grouped, other)
    ensures DistinctKeys(ToPlayers(sorted)) && AreasCovered(ToPlayers(sorted), ms)
  {
    assert Keys(ToPlayers(sorted)) == Keys(grouped);
  }

  lemma BeforeSortMembers(ms: seq<Entry>, grouped: seq<Bucket<Entry>>, sorted: seq<Bucket<Entry>>, other: seq<string>)
    requires BucketsHold(grouped, ms) && EachSorted(sorted, grouped, other)
    ensures HoldsSorted(ToPlayers(sorted), ms, other)
  {
  }

  lemma EachSortedPermutes(sorted: seq<Bucket<Entry>>, grouped: seq<Bucket<Entry>>, other: seq<string>)
    requires EachSorted(sorted, grouped, other)
    ensures forall i | 0 <= i < |sorted| :: multiset(sorted[i].members) == multiset(grouped[i].members)
  {
    forall i | 0 <= i < |sorted| ensures multiset(sorted[i].members) == multiset(grouped[i].members) {
      assert sorted[i].members == Sorting.Sort(grouped[i].members, EntryOrder(other));
    }
  }

  lemma BeforeSortPermutation(ms: seq<Entry>, grouped: seq<Bucket<Entry>>, sorted: seq<Bucket<Entry>>, other: seq<string>)
    requires multiset(Flatten(grouped)) == multiset(ms) && EachSorted(sorted, grouped, other)
    ensures multiset(Flatten(ToPlayers(sorted))) == multiset(Map(PlayerOf, ms))
  {
    EachSortedPermutes(sorted, grouped, other);
    FlattenPointwise(sorted, grouped);
    FlattenToPlayers(sorted);
    MapPermutation(PlayerOf, Flatten(sorted), ms);
  }

  lemma SortKeys(final: seq<Bucket<Player>>, r: seq<Bucket<Player>>, ms: seq<Entry>)
    requires multiset(final) == multiset(r) && DistinctKeys(final) && AreasCovered(final, ms)
    ensures DistinctKeys(r) && AreasCovered(r, ms)
  {
    DistinctKeysPermutation(final, r);
    KeysPermutation(final, r);
  }

  lemma SortMembers(final: seq<Bucket<Player>>, r: seq<Bucket<Player>>, ms: seq<Entry>, other: seq<string>)
    requires multiset(final) == multiset(r) && HoldsSorted(final, ms, other)
    ensures HoldsSorted(r, ms, other)
  {
    forall i | 0 <= i < |r|
      ensures r[i].members == Map(PlayerOf, Sorting.Sort(InArea(ms, r[i].area), EntryOrder(other)))
    {
      assert r[i] in multiset(final);
      var p :| 0 <= p < |final| && final[p] == r[i];
    }
  }

  lemma SortOrder(r: seq<Bucket<Player>>, areas: seq<string>)
    requires Sorting.Sorted(r, BucketOrder(areas)) && DistinctKeys(r)
    ensures OrderedByArea(r, areas)
  {
    forall i, j | 0 <= i < j < |r| ensures Precedes(areas, r[i].area, r[j].area) {
      var a, b := r[i].area, r[j].area;
      assert BucketOrder(areas)(r[i], r[j]) <= 0;
      assert Sign(SortWithArray(a, b, areas)) <= 0;
      SortWithArrayMeaning(a, b, areas);
      assert a != b;
    }
  }

  /** The final sort keeps the buckets and puts them in area order. */
  lemma FinalSort(final: seq<Bucket<Player>>, ms: seq<Entry>, matcher: AreaMatcher)
    requires DistinctKeys(final) && AreasCovered(final, ms) && HoldsSorted(final, ms, matcher.other)
    ensures SortedAreasOf(Sorting.Sort(final, BucketOrder(matcher.areas)), ms, matcher)
    ensures multiset(Flatten(Sorting.Sort(final, BucketOrder(matcher.areas)))) == multiset(Flatten(final))
  {
    var cmp := BucketOrder(matcher.areas);
    var r := Sorting.Sort(final, cmp);
    BucketOrderConsistent(matcher.areas);
    Sorting.IsStableSort(final, cmp);
    SortKeys(final, r, ms);
    SortMembers(final, r, ms, matcher.other);
    SortOrder(r, matcher.areas);
    FlatMapPermutation(Members, final, r);
  }

  /**
   * `sortAreas(playerList, matcher)`. It throws `TypeError` exactly when the matcher
   * matches some label without named groups; otherwise it returns the buckets that
   * `SortedAreasOf` describes, and they hold exactly the players of `playerList`.
   */
  method SortAreas(playerList: seq<Player>, matcher: AreaMatcher) returns (res: Result<seq<Bucket<Player>>, Error>)
    ensures res.Failure? <==>
      exists i | 0 <= i < |playerList| :: matcher.exec(playerList[i].areaLabel) == Matched(None)
    ensures res.Failure? ==> res.error == MissingGroups
    ensures res.Success? ==>
      && MatchAll(matcher, playerList).Success?
      && SortedAreasOf(res.value, MatchAll(matcher, playerList).value, matcher)
      && multiset(Flatten(res.value)) == multiset(playerList)
  {
    var m := MatchAll(matcher, playerList);
    if m.Failure? {
      return Failure(m.error);
    }
    var matched := m.value;
    var grouped := GroupByArea(matched);
    var sorted := SortBuckets(grouped, matcher.other);
    var final := ToPlayers(sorted);
    BeforeSortKeys(matched, grouped, sorted, matcher.other);
    BeforeSortMembers(matched, grouped, sorted, matcher.other);
    BeforeSortPermutation(matched, grouped, sorted, matcher.other);
    FinalSort(final, matched, matcher);
    assert Map(PlayerOf, matched) == playerList;
    res := Success(Sorting.Sort(final, BucketOrder(matcher.areas)));
  }

  // ---------------------------------------------------------------------------
  // The result is determined.

  /** Two key sequences in strictly increasing rank with the same keys are equal. */
  lemma {:induction false} RankedKeysUnique(k1: seq<string>, k2: seq<string>, areas: seq<string>)
    requires forall i, j | 0 <= i < j < |k1| :: Precedes(areas, k1[i], k1[j])
    requires forall i, j | 0 <= i < j < |k2| :: Precedes(areas, k2[i], k2[j])
    requires forall a :: a in k1 <==> a in k2
    ensures k1 == k2
    decreases |k1|
  {
    assert k2 != [] ==> k2[0] in k1;
    if k1 != [] {
      assert k1[0] in k2 && k2 != [];
      assert k2[0] in k1;
      var p :| 0 <= p < |k1| && k1[p] == k2[0];
      var q :| 0 <= q < |k2| && k2[q] == k1[0];
      PrecedesIsStrictTotalOrder(areas, k1[0], k2[0], k1[0]);
      assert k1[0] == k2[0];
      forall a ensures a in k1[1..] <==> a in k2[1..] {
        PrecedesIsStrictTotalOrder(areas, k1[0], k1[0], k1[0]);
        if a in k1[1..] {
          var i :| 0 <= i < |k1[1..]| && k1[1..][i] == a;
          assert Precedes(areas, k1[0], k1[i + 1]);
          assert a in k2;
        }
        if a in k2[1..] {
          var i :| 0 <= i < |k2[1..]| && k2[1..][i] == a;
          assert Precedes(areas, k2[0], k2[i + 1]);
          assert a in k1;
        }
      }
      RankedKeysUnique(k1[1..], k2[1..], areas);
      assert k1 == [k1[0]] + k1[1..] && k2 == [k2[0]] + k2[1..];
    }
  }

  /** `SortedAreasOf` leaves no choice: it describes one result. */
  lemma SortedAreasOfUnique(r1: seq<Bucket<Player>>, r2: seq<Bucket<Player>>, ms: seq<Entry>, matcher: AreaMatcher)
    requires SortedAreasOf(r1, ms, matcher) && SortedAreasOf(r2, ms, matcher)
    ensures r1 == r2
  {
    RankedKeysUnique(Keys(r1), Keys(r2), matcher.areas);
    assert |r1| == |r2|;
    forall i | 0 <= i < |r1| ensures r1[i] == r2[i] {
      assert Keys(r1)[i] == Keys(r2)[i];
    }
  }

  /** An empty player list gives an empty result. */
  lemma SortedAreasOfEmpty(r: seq<Bucket<Player>>, matcher: AreaMatcher)
    requires SortedAreasOf(r, [], matcher)
    ensures r == []
  {
    FirstKey(r);
  }
  // ---------------------------------------------------------------------------
  // Sorting a result again.

  lemma {:induction false} InAreaAppend(xs: seq<Entry>, ys: seq<Entry>, a: string)
    ensures InArea(xs + ys, a) == InArea(xs, a) + InArea(ys, a)
    decreases |ys|
  {
    if ys == [] {
      assert xs + ys == xs;
    } else {
      var init, last := ys[..|ys| - 1], ys[|ys| - 1];
      SnocSplit(xs, ys);
      InAreaAppend(xs, init, a);
      InAreaAppendStep(xs + init, xs, init, last, a);
    }
  }

  lemma InAreaAppendStep(p: seq<Entry>, xs: seq<Entry>, init: seq<Entry>, last: Entry, a: string)
    requires InArea(p, a) == InArea(xs, a) + InArea(init, a)
    ensures InArea(p + [last], a) == InArea(xs, a) + InArea(init + [last], a)
  {
    var t := if AreaOf(last) == a then [last] else [];
    InAreaSnoc(p, last, a);
    InAreaSnoc(init, last, a);
    AppendAssoc(InArea(p + [last], a), InArea(p, a), InArea(xs, a), InArea(init, a), t);
  }

  lemma SnocSplit<T>(xs: seq<T>, ys: seq<T>)
    requires ys != []
    ensures xs + ys == (xs + ys[..|ys| - 1]) + [ys[|ys| - 1]]
    ensures ys == ys[..|ys| - 1] + [ys[|ys| - 1]]
  {
  }

  lemma AppendAssoc<T>(l: seq<T>, m: seq<T>, x: seq<T>, y: seq<T>, t: seq<T>)
    requires l == m + t && m == x + y
    ensures l == x + (y + t)
  {
  }

  /** Entries that all have area `a` are all kept by `InArea(_, a)`. */
  lemma {:induction false} InAreaAll(xs: seq<Entry>, a: string)
    requires forall x | x in xs :: AreaOf(x) == a
    ensures InArea(xs, a) == xs
    decreases |xs|
  {
    if xs != [] {
      var init, last := xs[..|xs| - 1], xs[|xs| - 1];
      assert xs == init + [last];
      InAreaAll(init, a);
      InAreaSnoc(init, last, a);
    }
  }

  lemma InAreaNone(xs: seq<Entry>, a: string)
    requires forall x | x in xs :: AreaOf(x) != a
    ensures InArea(xs, a) == []
  {
    if InArea(xs, a) != [] {
      assert InArea(xs, a)[0] in InArea(xs, a);
    }
  }

  /** An area occurs among the entries exactly when it has entries. */
  lemma InAreaNonEmpty(es: seq<Entry>, a: string)
    ensures a in AreasOf(es) <==> InArea(es, a) != []
  {
    if a in AreasOf(es) {
      var k :| 0 <= k < |es| && AreasOf(es)[k] == a;
      assert es[k] in InArea(es, a);
    }
    if InArea(es, a) != [] {
      var x := InArea(es, a)[0];
      assert x in es;
      var k :| 0 <= k < |es| && es[k] == x;
      assert AreasOf(es)[k] == a;
    }
  }

  /** Each bucket holds entries of its own area only. */
  ghost predicate OwnAreas(g: seq<Bucket<Entry>>) {
    forall i, x | 0 <= i < |g| && x in g[i].members :: AreaOf(x) == g[i].area
  }

  lemma OwnAreasTail(g: seq<Bucket<Entry>>)
    requires g != [] && OwnAreas(g)
    ensures OwnAreas(g[1..])
  {
    forall i, x | 0 <= i < |g| - 1 && x in g[1..][i].members ensures AreaOf(x) == g[1..][i].area {
      assert g[1..][i] == g[i + 1];
    }
  }

  /** Taking one area out of the flattened buckets gives back that area's bucket. */
  lemma {:induction false} InAreaFlattenKey(g: seq<Bucket<Entry>>, i: nat)
    requires i < |g| && DistinctKeys(g) && OwnAreas(g)
    ensures InArea(Flatten(g), g[i].area) == g[i].members
    decreases i
  {
    var a := g[i].area;
    assert Flatten(g) == g[0].members + Flatten(g[1..]);
    InAreaAppend(g[0].members, Flatten(g[1..]), a);
    DistinctTail(g);
    OwnAreasTail(g);
    if i == 0 {
      InAreaAll(g[0].members, a);
      assert a !in Keys(g[1..]) by {
        forall k | 0 <= k < |g| - 1 ensures Keys(g[1..])[k] != a {
          assert Keys(g[1..])[k] == g[k + 1].area;
        }
      }
      InAreaFlattenAbsent(g[1..], a);
    } else {
      InAreaNone(g[0].members, a);
      assert g[1..][i - 1] == g[i];
      InAreaFlattenKey(g[1..], i - 1);
    }
  }

  /** An area without a bucket has no entries in the flattened buckets. */
  lemma {:induction false} InAreaFlattenAbsent(g: seq<Bucket<Entry>>, a: string)
    requires OwnAreas(g) && a !in Keys(g)
    ensures InArea(Flatten(g), a) == []
    decreases |g|
  {
    if g != [] {
      assert Flatten(g) == g[0].members + Flatten(g[1..]);
      assert Keys(g)[0] == g[0].area;
      InAreaAppend(g[0].members, Flatten(g[1..]), a);
      InAreaNone(g[0].members, a);
      OwnAreasTail(g);
      assert a !in Keys(g[1..]) by {
        forall k | 0 <= k < |g| - 1 ensures Keys(g[1..])[k] != a {
          assert Keys(g[1..])[k] == g[k + 1].area == Keys(g)[k + 1];
        }
      }
      InAreaFlattenAbsent(g[1..], a);
    }
  }

  /** Parsing the players of already parsed entries gives those entries back. */
  lemma Reparse(matcher: AreaMatcher, players: seq<Player>, es: seq<Entry>)
    requires MatchAll(matcher, players).Success?
    requires forall x | x in es :: x in MatchAll(matcher, players).value
    ensures MatchAll(matcher, Map(PlayerOf, es)) == Success(es)
  {
    var ms := MatchAll(matcher, players).value;
    var ps := Map(PlayerOf, es);
    forall k | 0 <= k < |ps|
      ensures matcher.exec(ps[k].areaLabel) != Matched(None)
      ensures es[k] == Entry(ps[k], ParseLabel(matcher, ps[k].areaLabel).value)
    {
      assert es[k] in ms;
      var j :| 0 <= j < |ms| && ms[j] == es[k];
      assert ms[j] == Entry(players[j], ParseLabel(matcher, players[j].areaLabel).value);
    }
    var m := MatchAll(matcher, ps);
    assert m.Success?;
    assert m.value == es;
  }

  /** The entry buckets behind a result: each area's entries, sorted. */
  function EntryBuckets(r: seq<Bucket<Player>>, ms: seq<Entry>, other: seq<string>): seq<Bucket<Entry>> {
    Map((b: Bucket<Player>) => Bucket(b.area, Sorting.Sort(InArea(ms, b.area), EntryOrder(other))), r)
  }

  lemma EntryBucketsFacts(r: seq<Bucket<Player>>, ms: seq<Entry>, matcher: AreaMatcher)
    requires SortedAreasOf(r, ms, matcher)
    ensures ToPlayers(EntryBuckets(r, ms, matcher.other)) == r
    ensures DistinctKeys(EntryBuckets(r, ms, matcher.other)) && OwnAreas(EntryBuckets(r, ms, matcher.other))
    ensures forall x | x in Flatten(EntryBuckets(r, ms, matcher.other)) :: x in ms
  {
    var cmp := EntryOrder(matcher.other);
    var g := EntryBuckets(r, ms, matcher.other);
    EntryOrderConsistent(matcher.other);
    forall i | 0 <= i < |g| ensures ToPlayers(g)[i] == r[i] {
      assert ToPlayers(g)[i] == PlayersOf(g[i]);
    }
    forall i, x | 0 <= i < |g| && x in g[i].members ensures x in InArea(ms, g[i].area) {
      Sorting.IsStableSort(InArea(ms, g[i].area), cmp);
      assert x in multiset(g[i].members);
    }
    forall x | x in Flatten(g) ensures x in ms {
      FlattenMember(g, x);
    }
  }

  /** Sorting a bucket of the result again leaves it as it is. */
  lemma ResortBucket(r: seq<Bucket<Player>>, ms: seq<Entry>, matcher: AreaMatcher, i: nat)
    requires SortedAreasOf(r, ms, matcher) && i < |r|
    ensures var g := EntryBuckets(r, ms, matcher.other);
      Sorting.Sort(InArea(Flatten(g), r[i].area), EntryOrder(matcher.other)) == g[i].members
  {
    var cmp := EntryOrder(matcher.other);
    var g := EntryBuckets(r, ms, matcher.other);
    EntryBucketsFacts(r, ms, matcher);
    InAreaFlattenKey(g, i);
    EntryOrderConsistent(matcher.other);
    Sorting.IsStableSort(InArea(ms, r[i].area), cmp);
    Sorting.SortOfSorted(g[i].members, cmp);
  }

  /** An area of the result has players in the result. */
  lemma ResortKey(r: seq<Bucket<Player>>, ms: seq<Entry>, matcher: AreaMatcher, i: nat)
    requires SortedAreasOf(r, ms, matcher) && i < |r|
    ensures r[i].area in AreasOf(Flatten(EntryBuckets(r, ms, matcher.other)))
  {
    var g := EntryBuckets(r, ms, matcher.other);
    var a := r[i].area;
    EntryBucketsFacts(r, ms, matcher);
    InAreaFlattenKey(g, i);
    assert a in AreasOf(ms) by {
      assert Keys(r)[i] == a;
    }
    InAreaNonEmpty(ms, a);
    EntryOrderConsistent(matcher.other);
    Sorting.IsStableSort(InArea(ms, a), EntryOrder(matcher.other));
    assert |g[i].members| == |InArea(ms, a)|;
    InAreaNonEmpty(Flatten(g), a);
  }

  /** An area without a bucket in the result has no players in it. */
  lemma ResortNonKey(r: seq<Bucket<Player>>, ms: seq<Entry>, matcher: AreaMatcher, a: string)
    requires SortedAreasOf(r, ms, matcher) && a !in Keys(r)
    ensures a !in AreasOf(Flatten(EntryBuckets(r, ms, matcher.other)))
  {
    var g := EntryBuckets(r, ms, matcher.other);
    EntryBucketsFacts(r, ms, matcher);
    assert a !in Keys(g) by {
      forall k | 0 <= k < |g| ensures Keys(g)[k] != a {
        assert Keys(g)[k] == Keys(r)[k];
      }
    }
    InAreaFlattenAbsent(g, a);
    InAreaNonEmpty(Flatten(g), a);
  }

  /** The result has a bucket for an area exactly when its players have that area. */
  lemma ResortAreas(r: seq<Bucket<Player>>, ms: seq<Entry>, matcher: AreaMatcher, a: string)
    requires SortedAreasOf(r, ms, matcher)
    ensures a in Keys(r) <==> a in AreasOf(Flatten(EntryBuckets(r, ms, matcher.other)))
  {
    if a in Keys(r) {
      var i :| 0 <= i < |r| && Keys(r)[i] == a;
      ResortKey(r, ms, matcher, i);
    } else {
      ResortNonKey(r, ms, matcher, a);
    }
  }

  /**
   * Sorting a result again: the players of a result, parsed by the same matcher, parse
   * without error and describe that same result, so `sortAreas` returns it unchanged.
   */
  lemma SortAreasIdempotent(players: seq<Player>, matcher: AreaMatcher, r: seq<Bucket<Player>>)
    requires MatchAll(matcher, players).Success?
    requires SortedAreasOf(r, MatchAll(matcher, players).value, matcher)
    ensures MatchAll(matcher, Flatten(r)).Success?
    ensures SortedAreasOf(r, MatchAll(matcher, Flatten(r)).value, matcher)
  {
    var ms := MatchAll(matcher, players).value;
    var g := EntryBuckets(r, ms, matcher.other);
    EntryBucketsFacts(r, ms, matcher);
    FlattenToPlayers(g);
    Reparse(matcher, players, Flatten(g));
    assert MatchAll(matcher, Flatten(r)) == Success(Flatten(g));
    forall a ensures a in Keys(r) <==> a in AreasOf(Flatten(g)) {
      ResortAreas(r, ms, matcher, a);
    }
    forall i | 0 <= i < |r|
      ensures r[i].members == Map(PlayerOf, Sorting.Sort(InArea(Flatten(g), r[i].area), EntryOrder(matcher.other)))
    {
      ResortBucket(r, ms, matcher, i);
      assert r[i] == ToPlayers(g)[i] == PlayersOf(g[i]);
    }
  }
}
