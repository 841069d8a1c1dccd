/**
 * The `overworld` preset of `areaMatcher`: the pattern
 *   ^(?<area>\D+)(?:\s+(?<number>\d+))?(?:\s+(?<other>\S+))?$
 * and its priority lists. The pattern is implemented by hand as the backtracking
 * search a JavaScript engine performs: the greedy `\D+` tries the longest area first
 * and gives back one character at a time, and for each area the optional number
 * group is tried before it is skipped. The lemmas show that the first match found
 * is the match with the longest area, and among those one with a number if any has
 * one, and that this match is unique.
 */
module Overworld {
  import opened Wrappers
  import opened Text
  import opened Matching

  /**
   * A match of the whole label `s`, by the positions where its parts start and end:
   * the area is `s[..areaEnd]`, the number group's separator `s[areaEnd..numberStart]`,
   * the number `s[numberStart..numberEnd]`, the other group's separator
   * `s[numberEnd..otherStart]` and the other tag `s[otherStart..]`. A group that does
   * not take part is empty, and so is its separator.
   */
  datatype Captures = Captures(areaEnd: nat, numberStart: nat, numberEnd: nat, otherStart: nat)

  // ---------------------------------------------------------------------------
  // Character classes over the stretch `s[a..b]` of a label.

  predicate DigitsIn(s: string, a: nat, b: nat)
    requires b <= |s|
  {
    forall i | a <= i < b :: IsDigit(s[i])
  }

  predicate NoDigitsIn(s: string, a: nat, b: nat)
    requires b <= |s|
  {
    forall i | a <= i < b :: !IsDigit(s[i])
  }

  predicate WhitespaceIn(s: string, a: nat, b: nat)
    requires b <= |s|
  {
    forall i | a <= i < b :: IsWhitespace(s[i])
  }

  predicate NoWhitespaceIn(s: string, a: nat, b: nat)
    requires b <= |s|
  {
    forall i | a <= i < b :: !IsWhitespace(s[i])
  }

  /** `(?:\s+(?<number>\d+))?` consumed `s[a..e]`, the separator being `s[a..b]`. */
  predicate ValidNumber(s: string, a: nat, b: nat, e: nat)
    requires b <= e <= |s|
  {
    if b == e then a == b else a < b && WhitespaceIn(s, a, b) && DigitsIn(s, b, e)
  }

  /** `(?:\s+(?<other>\S+))?$` consumed `s[a..]`, the separator being `s[a..b]`. */
  predicate ValidOther(s: string, a: nat, b: nat)
    requires b <= |s|
  {
    if b == |s| then a == b else a < b && WhitespaceIn(s, a, b) && NoWhitespaceIn(s, b, |s|)
  }

  /** `c` is a way for the pattern to match the whole of `s`. */
  predicate IsMatch(s: string, c: Captures) {
    && 0 < c.areaEnd <= c.numberStart <= c.numberEnd <= c.otherStart <= |s|
    && NoDigitsIn(s, 0, c.areaEnd)
    && ValidNumber(s, c.areaEnd, c.numberStart, c.numberEnd)
    && ValidOther(s, c.numberEnd, c.otherStart)
  }

  predicate HasNumber(c: Captures) {
    c.numberStart < c.numberEnd
  }

  /** `r` is found no later than `c` by the backtracking search. */
  predicate FoundFirst(r: Captures, c: Captures) {
    || c.areaEnd < r.areaEnd
    || (c.areaEnd == r.areaEnd && (HasNumber(c) ==> HasNumber(r)))
  }

  // ---------------------------------------------------------------------------
  // Greedy runs of one character class, from position `p`: where each run ends.

  function NonDigitEnd(s: string, p: nat): (q: nat)
    requires p <= |s|
    ensures p <= q <= |s| && NoDigitsIn(s, p, q) && (q < |s| ==> IsDigit(s[q]))
    decreases |s| - p
  {
    if p == |s| || IsDigit(s[p]) then p else NonDigitEnd(s, p + 1)
  }

  function WhitespaceEnd(s: string, p: nat): (q: nat)
    requires p <= |s|
    ensures p <= q <= |s| && WhitespaceIn(s, p, q) && (q < |s| ==> !IsWhitespace(s[q]))
    decreases |s| - p
  {
    if p == |s| || !IsWhitespace(s[p]) then p else WhitespaceEnd(s, p + 1)
  }

  function DigitEnd(s: string, p: nat): (q: nat)
    requires p <= |s|
    ensures p <= q <= |s| && DigitsIn(s, p, q) && (q < |s| ==> !IsDigit(s[q]))
    decreases |s| - p
  {
    if p == |s| || !IsDigit(s[p]) then p else DigitEnd(s, p + 1)
  }

  /** A whitespace run stops exactly where the whitespace ends. */
  lemma {:induction false} WhitespaceEndUpTo(s: string, a: nat, b: nat)
    requires a <= b <= |s| && WhitespaceIn(s, a, b) && (b < |s| ==> !IsWhitespace(s[b]))
    ensures WhitespaceEnd(s, a) == b
    decreases b - a
  {
    if a < b {
      WhitespaceEndUpTo(s, a + 1, b);
    }
  }

  /** A digit run stops exactly where the digits end. */
  lemma {:induction false} DigitEndUpTo(s: string, a: nat, b: nat)
    requires a <= b <= |s| && DigitsIn(s, a, b) && (b < |s| ==> !IsDigit(s[b]))
    ensures DigitEnd(s, a) == b
    decreases b - a
  {
    if a < b {
      DigitEndUpTo(s, a + 1, b);
    }
  }

  /** A non-digit run stops exactly where the non-digits end. */
  lemma {:induction false} NonDigitEndUpTo(s: string, a: nat, b: nat)
    requires a <= b <= |s| && NoDigitsIn(s, a, b) && (b < |s| ==> IsDigit(s[b]))
    ensures NonDigitEnd(s, a) == b
    decreases b - a
  {
    if a < b {
      NonDigitEndUpTo(s, a + 1, b);
    }
  }

  /** The digits of `s[a..b]`, as a string. */
  lemma DigitsSlice(s: string, a: nat, b: nat)
    requires a <= b <= |s| && DigitsIn(s, a, b)
    ensures AllDigits(s[a..b])
  {
    assert forall i | 0 <= i < b - a :: s[a..b][i] == s[a + i];
  }

  // ---------------------------------------------------------------------------
  // The search.

  /** The other group followed by `$`, from position `p`: where the tag starts. */
  function OtherPart(s: string, p: nat): (r: Option<nat>)
    requires p <= |s|
    ensures r.Some? ==> p <= r.value <= |s| && ValidOther(s, p, r.value)
  {
    if p == |s| then Some(p)
    else
      var q := WhitespaceEnd(s, p);
      if p < q < |s| && NoWhitespaceIn(s, q, |s|) then Some(q) else None
  }

  /** With the area `s[..k]`, the number group taking part. */
  function WithNumber(s: string, k: nat): (r: Option<Captures>)
    requires 0 < k <= |s| && NoDigitsIn(s, 0, k)
    ensures r.Some? ==> IsMatch(s, r.value) && r.value.areaEnd == k && HasNumber(r.value)
  {
    var q := WhitespaceEnd(s, k);
    var e := DigitEnd(s, q);
    if q == k || e == q then None
    else
      match OtherPart(s, e)
      case None => None
      case Some(o) => Some(Captures(k, q, e, o))
  }

  /** With the area `s[..k]`, the number group skipped. */
  function WithoutNumber(s: string, k: nat): (r: Option<Captures>)
    requires 0 < k <= |s| && NoDigitsIn(s, 0, k)
    ensures r.Some? ==> IsMatch(s, r.value) && r.value.areaEnd == k && !HasNumber(r.value)
  {
    match OtherPart(s, k)
    case None => None
    case Some(o) => Some(Captures(k, k, k, o))
  }

  /** The area `s[..k]`: the number group is tried first, then skipped. */
  function TryArea(s: string, k: nat): (r: Option<Captures>)
    requires 0 < k <= |s| && NoDigitsIn(s, 0, k)
    ensures r.Some? ==> IsMatch(s, r.value) && r.value.areaEnd == k
  {
    if WithNumber(s, k).Some? then WithNumber(s, k) else WithoutNumber(s, k)
  }

  /** Backtracking of `\D+`: areas of length `k`, `k - 1`, ..., 1 in turn. */
  function Search(s: string, k: nat): (r: Option<Captures>)
    requires k <= |s| && NoDigitsIn(s, 0, k)
    ensures r.Some? ==> IsMatch(s, r.value) && r.value.areaEnd <= k
  {
    if k == 0 then None
    else
      var r := TryArea(s, k);
      if r.Some? then r else Search(s, k - 1)
  }

  /** The match `regex.exec(label)` reports for the overworld pattern. */
  function OverworldMatch(s: string): (r: Option<Captures>)
    ensures r.Some? ==> IsMatch(s, r.value)
  {
    Search(s, NonDigitEnd(s, 0))
  }

  /** `matches.groups`: a group that did not take part is `undefined`. */
  function GroupsOf(s: string, c: Captures): Groups
    requires IsMatch(s, c)
  {
    var other := s[c.otherStart..];
    var tag := if other == "" then None else Some(other);
    if c.numberStart == c.numberEnd then Groups(s[..c.areaEnd], None, tag)
    else
      DigitsSlice(s, c.numberStart, c.numberEnd);
      Groups(s[..c.areaEnd], Some(s[c.numberStart..c.numberEnd]), tag)
  }

  /** `areaMatcher.overworld.regex.exec`: a match always carries its named groups. */
  function ExecOverworld(s: string): (r: ExecResult)
    ensures r != Matched(None)
  {
    match OverworldMatch(s)
    case None => NoMatch
    case Some(c) => Matched(Some(GroupsOf(s, c)))
  }

  const OverworldOther: seq<string> := ["VICTORY", "BOSS", "FINALE"]

  const OverworldAreas: seq<string> := ["Exodus", "April fools", "Nightmare"]

  /** `areaMatcher.overworld`. */
  const OverworldMatcher: AreaMatcher := AreaMatcher(ExecOverworld, OverworldOther, OverworldAreas)

  // ---------------------------------------------------------------------------
  // What the search finds.

  lemma OtherPartExact(s: string, c: Captures)
    requires IsMatch(s, c)
    ensures OtherPart(s, c.numberEnd) == Some(c.otherStart)
  {
    var p, q := c.numberEnd, c.otherStart;
    if q < |s| {
      WhitespaceEndUpTo(s, p, q);
    }
  }

  /** The separator of a number group is exactly the whitespace run after the area. */
  lemma NumberSeparatorRun(s: string, c: Captures)
    requires IsMatch(s, c) && HasNumber(c)
    ensures WhitespaceEnd(s, c.areaEnd) == c.numberStart
  {
    WhitespaceIsNotDigit(s[c.numberStart]);
    WhitespaceEndUpTo(s, c.areaEnd, c.numberStart);
  }

  /** The number group is exactly the digit run after its separator. */
  lemma NumberDigitsRun(s: string, c: Captures)
    requires IsMatch(s, c) && HasNumber(c)
    ensures DigitEnd(s, c.numberStart) == c.numberEnd
  {
    var b := c.numberEnd;
    if b < |s| {
      WhitespaceIsNotDigit(s[b]);
    }
    DigitEndUpTo(s, c.numberStart, b);
  }

  /** A match that uses the number group is the one `WithNumber` builds for its area. */
  lemma WithNumberExact(s: string, c: Captures)
    requires IsMatch(s, c) && HasNumber(c)
    ensures WithNumber(s, c.areaEnd) == Some(c)
  {
    NumberSeparatorRun(s, c);
    NumberDigitsRun(s, c);
    OtherPartExact(s, c);
  }

  /** A match that skips the number group is the one `WithoutNumber` builds for its area. */
  lemma WithoutNumberExact(s: string, c: Captures)
    requires IsMatch(s, c) && !HasNumber(c)
    ensures WithoutNumber(s, c.areaEnd) == Some(c)
  {
    OtherPartExact(s, c);
  }

  /** Given its area and whether it has a number, a match is unique. */
  lemma MatchUnique(s: string, c1: Captures, c2: Captures)
    requires IsMatch(s, c1) && IsMatch(s, c2)
    requires c1.areaEnd == c2.areaEnd && (HasNumber(c1) <==> HasNumber(c2))
    ensures c1 == c2
  {
    if HasNumber(c1) {
      WithNumberExact(s, c1);
      WithNumberExact(s, c2);
    } else {
      WithoutNumberExact(s, c1);
      WithoutNumberExact(s, c2);
    }
  }

  lemma TryAreaComplete(s: string, c: Captures)
    requires IsMatch(s, c)
    ensures TryArea(s, c.areaEnd).Some? && FoundFirst(TryArea(s, c.areaEnd).value, c)
  {
    if HasNumber(c) {
      WithNumberExact(s, c);
    } else {
      WithoutNumberExact(s, c);
    }
  }

  /** Searching down from any `k` at or beyond a match's area finds it or a match found before it. */
  lemma {:induction false} SearchComplete(s: string, k: nat, c: Captures)
    requires k <= |s| && NoDigitsIn(s, 0, k)
    requires IsMatch(s, c) && c.areaEnd <= k
    ensures Search(s, k).Some? && FoundFirst(Search(s, k).value, c)
    decreases k
  {
    if k == c.areaEnd {
      TryAreaComplete(s, c);
    } else if TryArea(s, k).None? {
      SearchComplete(s, k - 1, c);
    }
  }

  /** No match has an area longer than the non-digit prefix of the label. */
  lemma AreaWithinNonDigits(s: string, c: Captures)
    requires IsMatch(s, c)
    ensures c.areaEnd <= NonDigitEnd(s, 0)
  {
  }

  /**
   * The overworld pattern matches `s` exactly when some way of matching exists, and
   * the match reported is found first: no other match has a longer area, nor the same
   * area with a number where the reported one has none. It is the only such match.
   */
  lemma OverworldMatchIsFirst(s: string)
    ensures OverworldMatch(s).None? <==> forall c :: !IsMatch(s, c)
    ensures OverworldMatch(s).Some? ==> forall c :: IsMatch(s, c) ==> FoundFirst(OverworldMatch(s).value, c)
    ensures OverworldMatch(s).Some? ==>
      forall c :: IsMatch(s, c) && FoundFirst(c, OverworldMatch(s).value) ==> c == OverworldMatch(s).value
  {
    forall c | IsMatch(s, c) ensures OverworldMatch(s).Some? && FoundFirst(OverworldMatch(s).value, c) {
      AreaWithinNonDigits(s, c);
      SearchComplete(s, NonDigitEnd(s, 0), c);
    }
    if OverworldMatch(s).Some? {
      var r := OverworldMatch(s).value;
      forall c | IsMatch(s, c) && FoundFirst(c, r) ensures c == r {
        MatchUnique(s, c, r);
      }
    }
  }
}

/** What the overworld pattern reports for the label shapes the player list meets. */
module OverworldExamples {
  import opened Wrappers
  import opened Text
  import opened Matching
  import opened Overworld

  lemma NoDigitsPrefix(s: string, k: nat)
    requires k <= |s| && NoDigits(s[..k])
    ensures NoDigitsIn(s, 0, k)
  {
    forall i | 0 <= i < k ensures !IsDigit(s[i]) {
      assert s[i] == s[..k][i];
    }
  }

  lemma DigitsAt(s: string, a: nat, b: nat)
    requires a <= b <= |s| && AllDigits(s[a..b])
    ensures DigitsIn(s, a, b)
  {
    forall i | a <= i < b ensures IsDigit(s[i]) {
      assert s[i] == s[a..b][i - a];
    }
  }

  lemma NoWhitespaceAt(s: string, a: nat)
    requires a <= |s| && NoWhitespace(s[a..])
    ensures NoWhitespaceIn(s, a, |s|)
  {
    forall i | a <= i < |s| ensures !IsWhitespace(s[i]) {
      assert s[i] == s[a..][i - a];
    }
  }

  /** A label with no digit at all is all area, whatever spaces it contains. */
  lemma LabelWithoutDigits(s: string)
    requires |s| > 0 && NoDigits(s)
    ensures ExecOverworld(s) == Matched(Some(Groups(s, None, None)))
  {
    NonDigitEndUpTo(s, 0, |s|);
    WithoutNumberExact(s, Captures(|s|, |s|, |s|, |s|));
    assert s[..|s|] == s;
  }

  /** A label that starts with a digit has no area, so the pattern does not match. */
  lemma LabelStartingWithDigit(s: string)
    requires |s| > 0 && IsDigit(s[0])
    ensures ExecOverworld(s) == NoMatch
  {
  }

  /** When the area cannot take one more character, a match with a number is reported. */
  lemma ReportedAfterBacktrack(s: string, c: Captures)
    requires IsMatch(s, c) && HasNumber(c)
    requires NonDigitEnd(s, 0) == c.areaEnd + 1 && TryArea(s, c.areaEnd + 1).None?
    ensures ExecOverworld(s) == Matched(Some(GroupsOf(s, c)))
  {
    WithNumberExact(s, c);
    assert TryArea(s, c.areaEnd) == Some(c);
    assert Search(s, c.areaEnd + 1) == Search(s, c.areaEnd);
  }

  /** An area followed by a digit admits neither group. */
  lemma NothingAfterDigit(s: string, k: nat)
    requires 0 < k < |s| && NoDigitsIn(s, 0, k) && IsDigit(s[k])
    ensures TryArea(s, k).None?
  {
    WhitespaceIsNotDigit(s[k]);
  }

  /** A separator and then a digit after the area: the greedy area takes the separator, then gives it back. */
  lemma AfterSeparatorIsDigit(s: string, k: nat)
    requires k + 1 < |s| && !IsDigit(s[k]) && IsDigit(s[k + 1]) && NoDigitsIn(s, 0, k)
    ensures NonDigitEnd(s, 0) == k + 1
    ensures NoDigitsIn(s, 0, k + 1) && TryArea(s, k + 1).None?
  {
    NonDigitEndUpTo(s, 0, k + 1);
    NothingAfterDigit(s, k + 1);
  }

  /** A match whose number is one whitespace character after the area is the one reported. */
  lemma SingleSeparator(s: string, c: Captures)
    requires IsMatch(s, c) && HasNumber(c) && c.numberStart == c.areaEnd + 1
    ensures ExecOverworld(s) == Matched(Some(GroupsOf(s, c)))
  {
    WhitespaceIsNotDigit(s[c.areaEnd]);
    AfterSeparatorIsDigit(s, c.areaEnd);
    ReportedAfterBacktrack(s, c);
  }

  lemma SliceFacts4(area: string, n: string, tag: string)
    ensures var s := area + " " + n + " " + tag; var k := |area|;
      && |s| == k + 2 + |n| + |tag|
      && s[..k] == area && s[k] == ' ' && s[k + 1..k + 1 + |n|] == n
      && s[k + 1 + |n|] == ' ' && s[k + 2 + |n|..] == tag
  {
    var s := area + " " + n + " " + tag;
    var k := |area|;
    assert s == area + (" " + (n + (" " + tag)));
    assert s[k..] == " " + (n + (" " + tag));
    assert s[k + 1..] == n + (" " + tag);
    assert s[k + 1 + |n|..] == " " + tag;
  }

  /** The way `area number tag` matches: area, one space, the number, one space, the tag. */
  lemma MatchOf4(area: string, n: string, tag: string)
    requires |area| > 0 && NoDigits(area)
    requires |n| > 0 && AllDigits(n)
    requires |tag| > 0 && NoWhitespace(tag)
    ensures var s := area + " " + n + " " + tag; var k := |area|;
      IsMatch(s, Captures(k, k + 1, k + 1 + |n|, k + 2 + |n|))
  {
    var s := area + " " + n + " " + tag;
    var k := |area|;
    SliceFacts4(area, n, tag);
    NoDigitsPrefix(s, k);
    DigitsAt(s, k + 1, k + 1 + |n|);
    NoWhitespaceAt(s, k + 2 + |n|);
  }

  /**
   * An area, one space, a number, one space and a tag: the greedy area first takes
   * the space too, finds neither group after it, and gives the space back.
   */
  lemma LabelWithNumberAndTag(area: string, n: string, tag: string)
    requires |area| > 0 && NoDigits(area)
    requires |n| > 0 && AllDigits(n)
    requires |tag| > 0 && NoWhitespace(tag)
    ensures ExecOverworld(area + " " + n + " " + tag) == Matched(Some(Groups(area, Some(n), Some(tag))))
  {
    var k := |area|;
    GroupsOf4(area, n, tag);
    SingleSeparator(area + " " + n + " " + tag, Captures(k, k + 1, k + 1 + |n|, k + 2 + |n|));
  }

  lemma GroupsOf4(area: string, n: string, tag: string)
    requires |area| > 0 && NoDigits(area)
    requires |n| > 0 && AllDigits(n)
    requires |tag| > 0 && NoWhitespace(tag)
    ensures var s := area + " " + n + " " + tag; var k := |area|;
      var c := Captures(k, k + 1, k + 1 + |n|, k + 2 + |n|);
      IsMatch(s, c) && GroupsOf(s, c) == Groups(area, Some(n), Some(tag))
  {
    MatchOf4(area, n, tag);
    SliceFacts4(area, n, tag);
  }

  lemma SliceFacts2(area: string, n: string)
    ensures var s := area + " " + n; var k := |area|;
      && |s| == k + 1 + |n|
      && s[..k] == area && s[k] == ' ' && s[k + 1..k + 1 + |n|] == n && s[k + 1 + |n|..] == ""
  {
    var s := area + " " + n;
    var k := |area|;
    assert s == area + (" " + n);
    assert s[k + 1..] == n;
  }

  /** The way `area number` matches: area, one space, the number. */
  lemma MatchOf2(area: string, n: string)
    requires |area| > 0 && NoDigits(area)
    requires |n| > 0 && AllDigits(n)
    ensures var s := area + " " + n; var k := |area|;
      IsMatch(s, Captures(k, k + 1, k + 1 + |n|, k + 1 + |n|))
  {
    var s := area + " " + n;
    var k := |area|;
    SliceFacts2(area, n);
    NoDigitsPrefix(s, k);
    DigitsAt(s, k + 1, k + 1 + |n|);
  }

  /** An area, one space and a number, without a tag. */
  lemma LabelWithNumber(area: string, n: string)
    requires |area| > 0 && NoDigits(area)
    requires |n| > 0 && AllDigits(n)
    ensures ExecOverworld(area + " " + n) == Matched(Some(Groups(area, Some(n), None)))
  {
    var k := |area|;
    GroupsOf2(area, n);
    SingleSeparator(area + " " + n, Captures(k, k + 1, k + 1 + |n|, k + 1 + |n|));
  }

  lemma GroupsOf2(area: string, n: string)
    requires |area| > 0 && NoDigits(area)
    requires |n| > 0 && AllDigits(n)
    ensures var s := area + " " + n; var k := |area|;
      var c := Captures(k, k + 1, k + 1 + |n|, k + 1 + |n|);
      IsMatch(s, c) && GroupsOf(s, c) == Groups(area, Some(n), None)
  {
    MatchOf2(area, n);
    SliceFacts2(area, n);
  }
}
