/**
 * `sortAreas` with `areaMatcher.overworld`: how labels parse, how areas and tags
 * rank, and the order the code gives the Exodus players of the doc-comment example.
 */
module OverworldPlayerList {
  import opened Wrappers
  import opened JsNumber
  import opened Text
  import opened Ranking
  import opened Matching
  import opened Overworld
  import opened OverworldExamples
  import opened PlayerList

  /** The overworld matcher never matches without groups, so `sortAreas` never throws with it. */
  lemma OverworldNeverThrows(players: seq<Player>)
    ensures MatchAll(OverworldMatcher, players).Success?
  {
    forall i | 0 <= i < |players| ensures OverworldMatcher.exec(players[i].areaLabel) != Matched(None) {
      assert OverworldMatcher.exec(players[i].areaLabel) == ExecOverworld(players[i].areaLabel);
    }
  }

  /** An area, a number and a tag, single-spaced, parse into their three parts. */
  lemma ParseWithNumberAndTag(area: string, n: string, tag: string)
    requires |area| > 0 && NoDigits(area)
    requires |n| > 0 && AllDigits(n)
    requires |tag| > 0 && NoWhitespace(tag)
    ensures ParseLabel(OverworldMatcher, area + " " + n + " " + tag)
         == Success(Matches(area, Finite(DecimalValue(n)), tag))
  {
    LabelWithNumberAndTag(area, n, tag);
    ParseGroups(area + " " + n + " " + tag, area, n, Some(tag));
  }

  /** An area and a number, single-spaced, parse with an empty tag. */
  lemma ParseWithNumber(area: string, n: string)
    requires |area| > 0 && NoDigits(area)
    requires |n| > 0 && AllDigits(n)
    ensures ParseLabel(OverworldMatcher, area + " " + n) == Success(Matches(area, Finite(DecimalValue(n)), ""))
  {
    LabelWithNumber(area, n);
    ParseGroups(area + " " + n, area, n, None);
  }

  lemma ParseGroups(s: string, area: string, n: DigitString, other: Option<string>)
    requires n != "" && ExecOverworld(s) == Matched(Some(Groups(area, Some(n), other)))
    ensures ParseLabel(OverworldMatcher, s) == Success(Matches(area, Finite(DecimalValue(n)), other.GetOr("")))
  {
  }

  lemma Value150()
    ensures AllDigits("150") && DecimalValue("150") == 150
  {
    assert "150"[..2] == "15" && "15"[..1] == "1" && "1"[..0] == "";
  }

  lemma ParseAreaNumberTag()
    ensures ParseLabel(OverworldMatcher, "Exodus 150 VICTORY") == Success(Matches("Exodus", Finite(150), "VICTORY"))
  {
    assert NoDigits("Exodus") && NoWhitespace("VICTORY");
    Value150();
    assert "Exodus 150 VICTORY" == "Exodus" + " " + "150" + " " + "VICTORY";
    ParseWithNumberAndTag("Exodus", "150", "VICTORY");
  }

  lemma ParseAreaNumber()
    ensures ParseLabel(OverworldMatcher, "Exodus 10") == Success(Matches("Exodus", Finite(10), ""))
  {
    assert NoDigits("Exodus");
    assert AllDigits("10") && DecimalValue("10") == 10 by {
      assert "10"[..1] == "1" && "1"[..0] == "";
    }
    assert "Exodus 10" == "Exodus" + " " + "10";
    ParseWithNumber("Exodus", "10");
  }

  /** A label without a number gets `-Infinity` and sorts after the numbered ones. */
  lemma ParseAreaOnly()
    ensures ParseLabel(OverworldMatcher, "The Lava Lakes") == Success(Matches("The Lava Lakes", NegInfinity, ""))
  {
    assert NoDigits("The Lava Lakes");
    LabelWithoutDigits("The Lava Lakes");
  }

  /** A label the pattern rejects goes to `???`, numbered by all of its digits. */
  lemma ParseUnmatched()
    ensures ParseLabel(OverworldMatcher, "150 VICTORY") == Success(Matches("???", Finite(150), ""))
  {
    LabelStartingWithDigit("150 VICTORY");
    NumberOfUnmatched();
  }

  lemma NumberOfUnmatched()
    ensures GetNumber("150 VICTORY") == 150
  {
    UnmatchedParts();
    GetNumberNoDigits(" VICTORY");
    GetNumberConcat("150", " VICTORY");
    Value150();
    DigitsOfDigits("150");
  }

  lemma UnmatchedParts()
    ensures "150 VICTORY" == "150" + " VICTORY" && NoDigits(" VICTORY")
  {
  }

  lemma {:induction false} DigitsOfDigits(s: string)
    requires AllDigits(s)
    ensures Digits(s) == s
    decreases |s|
  {
    if s != [] {
      DigitsOfDigits(s[1..]);
    }
  }

  /** Overworld areas rank Exodus, April fools, Nightmare, then every other area. */
  lemma OverworldListedAreas(a: string)
    ensures Precedes(OverworldAreas, "Exodus", "April fools")
    ensures Precedes(OverworldAreas, "April fools", "Nightmare")
    ensures a !in OverworldAreas ==> Precedes(OverworldAreas, "Nightmare", a)
  {
    assert OverworldAreas[0] == "Exodus" && OverworldAreas[1] == "April fools" && OverworldAreas[2] == "Nightmare";
    assert "April fools" !in OverworldAreas[..1];
    assert "Nightmare" !in OverworldAreas[..2];
  }

  /**
   * Other areas, `???` among them, go in string order, so in the doc-comment example
   * Battlefield goes before Battlefield Advanced.
   */
  lemma OverworldUnlistedAreas(a: string, b: string)
    ensures a !in OverworldAreas && b !in OverworldAreas ==> (Precedes(OverworldAreas, a, b) <==> StrLess(a, b))
    ensures Precedes(OverworldAreas, "Battlefield", "Battlefield Advanced")
  {
    assert "Battlefield" !in OverworldAreas && "Battlefield Advanced" !in OverworldAreas;
    BattlefieldFirst();
  }

  lemma BattlefieldFirst()
    ensures StrLess("Battlefield", "Battlefield Advanced")
  {
    PrefixStrLess("Battlefield", " Advanced");
    assert "Battlefield" + " Advanced" == "Battlefield Advanced";
  }

  /**
   * Overworld tags rank VICTORY, BOSS, FINALE; a missing tag (`""`) comes after them
   * and before every other tag.
   */
  lemma OverworldTagRanks(t: string)
    ensures Precedes(OverworldOther, "VICTORY", "BOSS")
    ensures Precedes(OverworldOther, "BOSS", "FINALE")
    ensures Precedes(OverworldOther, "FINALE", "")
    ensures t != "" && t !in OverworldOther ==> Precedes(OverworldOther, "", t)
  {
    assert OverworldOther[0] == "VICTORY" && OverworldOther[1] == "BOSS" && OverworldOther[2] == "FINALE";
    assert "BOSS" !in OverworldOther[..1];
    assert "FINALE" !in OverworldOther[..2];
    assert "" !in OverworldOther;
  }

  /**
   * The Exodus players of the doc-comment example, sorted as the code sorts them:
   * highest number first, and VICTORY before BOSS at equal numbers. (The doc comment
   * shows the reverse order.)
   */
  lemma ExodusBucketOrder(e0: Entry, e1: Entry, e2: Entry, e3: Entry)
    requires e0.matches == Matches("Exodus", Finite(150), "VICTORY")
    requires e1.matches == Matches("Exodus", Finite(10), "")
    requires e2.matches == Matches("Exodus", Finite(50), "VICTORY")
    requires e3.matches == Matches("Exodus", Finite(50), "BOSS")
    ensures Sorting.Sort([e0, e1, e2, e3], EntryOrder(OverworldOther)) == [e0, e2, e3, e1]
  {
    ExodusComparisons(e0, e1, e2, e3);
    SortFour(e0, e1, e2, e3, EntryOrder(OverworldOther));
    Cons4(e0, e1, e2, e3);
    Cons4(e0, e2, e3, e1);
  }

  lemma ExodusComparisons(e0: Entry, e1: Entry, e2: Entry, e3: Entry)
    requires e0.matches == Matches("Exodus", Finite(150), "VICTORY")
    requires e1.matches == Matches("Exodus", Finite(10), "")
    requires e2.matches == Matches("Exodus", Finite(50), "VICTORY")
    requires e3.matches == Matches("Exodus", Finite(50), "BOSS")
    ensures var cmp := EntryOrder(OverworldOther);
      cmp(e2, e3) < 0 && cmp(e1, e2) > 0 && cmp(e1, e3) > 0 && cmp(e0, e2) < 0
  {
    assert IndexOf(OverworldOther, "VICTORY") == 0;
    assert IndexOf(OverworldOther, "BOSS") == 1;
  }

  lemma Cons4<T>(a: T, b: T, c: T, d: T)
    ensures [a, b, c, d] == [a] + ([b] + ([c] + [d]))
  {
  }

  lemma SortCons<T>(x: T, rest: seq<T>, cmp: (T, T) -> int)
    ensures Sorting.Sort([x] + rest, cmp) == Sorting.Insert(x, Sorting.Sort(rest, cmp), cmp)
  {
    assert ([x] + rest)[1..] == rest;
  }

  lemma InsertFront<T>(x: T, ys: seq<T>, cmp: (T, T) -> int)
    requires ys != [] && cmp(x, ys[0]) <= 0
    ensures Sorting.Insert(x, ys, cmp) == [x] + ys
  {
  }

  /** Insertion sort of four elements with these comparisons. */
  lemma SortFour<T>(a: T, b: T, c: T, d: T, cmp: (T, T) -> int)
    requires cmp(c, d) < 0 && cmp(b, c) > 0 && cmp(b, d) > 0 && cmp(a, c) < 0
    ensures Sorting.Sort([a] + ([b] + ([c] + [d])), cmp) == [a] + ([c] + ([d] + [b]))
  {
    SortCons(d, [], cmp);
    assert [d] + [] == [d];
    SortCons(c, [d], cmp);
    InsertFront(c, [d], cmp);
    Sorting.InsertStep(b, [d], cmp);
    assert [d][1..] == [];
    assert Sorting.Insert(b, [d], cmp) == [d] + [b];
    Sorting.InsertStep(b, [c] + [d], cmp);
    assert ([c] + [d])[1..] == [d];
    SortCons(b, [c] + [d], cmp);
    InsertFront(a, [c] + ([d] + [b]), cmp);
    SortCons(a, [b] + ([c] + [d]), cmp);
  }
}
