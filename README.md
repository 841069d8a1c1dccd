# sortAreas: the player-list grouper, in Dafny

`js/playerList.js` arranges the players of a game server for display. Each player is a
tuple `[name, areaLabel, flag, flag]`. `sortAreas(playerList, matcher)` works in four steps:

1. It parses each area label with the matcher's regular expression into an area, a number
   and an `other` tag.
2. It groups the players by area, in order of first appearance.
3. It sorts each group by number, highest first, breaking ties by the rank of the tag in
   `matcher.other`.
4. It sorts the groups by the rank of their area in `matcher.areas`.

The ranking comparator `sortWithArray` puts a listed value before an unlisted one, two
listed values in list order, and everything else in JavaScript string order. A label the
matcher rejects goes to the area `???`, with the number `getNumber` reads from all of
its digits.

The model has one module per concern:

- `Wrappers`: Option and Result.
- `JsNumber`: the number values the code produces (`-Infinity`, integers, `Infinity`),
  their order, subtraction, and the sign a sort reads from a comparator.
- `Text`: `\d`, `\s`, string order, and `getNumber`.
- `Ranking`: `indexOf`, `negOneToInf`, `sortWithArray`, and the order it stands for.
- `Sorting`: `Array.prototype.sort` with a comparator. It is a stable insertion sort,
  proved to be the only sorted, stable permutation, so every stable sort returns the
  same result.
- `Matching`: what `sortAreas` needs from a matcher. `regex.exec` is a function from
  the label to "no match", "match without groups" or the named groups.
- `Overworld` and `OverworldExamples`: `areaMatcher.overworld`.
  - The regular expression is implemented by hand, as the backtracking search of a
    JavaScript engine: the greedy area gives characters back one by one, and for each
    area the number group is tried before it is skipped.
  - It is proved to return the match with the longest area, preferring one with a number.
    That match is unique, and there is none exactly when no way of matching exists.
- `Buckets`: the `[area, players]` pairs and the permutation facts about mapping and
  flattening them.
- `PlayerList`: the parse, the grouping loop (`GroupByArea`), the in-bucket sort loop
  (`SortBuckets`), and `SortAreas`.
  - `SortAreas` throws `TypeError` exactly when a match has no groups.
  - Otherwise its result is the one and only result described by `SortedAreasOf`:
    distinct areas, exactly the areas of the labels, each holding its players stably
    sorted, in strictly increasing area rank. It holds exactly the input players,
    flags included.
  - Sorting a result again with the same matcher returns it unchanged.
- `OverworldPlayerList`: what the overworld matcher gives for concrete labels, and how
  its areas and tags rank.

The code and its doc comment (js/playerList.js:260-283) disagree. The model follows the
code: the comparator at js/playerList.js:325 returns `b.number - a.number`, so higher
numbers go first, and `VICTORY` goes before `BOSS` because it comes first in the `other`
list. `OverworldPlayerList.ExodusBucketOrder` proves the order the code gives the
example's Exodus players: 150 VICTORY, 50 VICTORY, 50 BOSS, 10. The doc comment shows
the reverse.

## Model

| member | source | states |
|---|---|---|
| `Text.IsDigit` | js/playerList.js:230 | `\d`, the ASCII digits; `Text.WhitespaceIsNotDigit` shows no `\s` character is one |
| `Text.IsWhitespace` | js/playerList.js:230 | `\s`, the ECMAScript WhiteSpace and LineTerminator code points; the tag and separator runs of `Overworld.WhitespaceEnd` and `Overworld.OtherPart` are built on it |
| `Text.GetNumber` | js/playerList.js:246 | `getNumber`, the number the label's digits spell when joined; its meaning is given by `Text.GetNumberChar`, `Text.GetNumberConcat` and `Text.GetNumberNoDigits`, which fix its value on every label character by character |
| `Text.Digits` | js/playerList.js:246 | `[...str.matchAll(/\d/g)].map(([m]) => m).join("")`, the label's digits in order; its meaning is given by `Text.DigitsConcat` and `Text.GetNumberChar` |
| `Text.DecimalValue` | js/playerList.js:305 | `Number(...)` of a digit string, as in `getNumber` (line 246) and `Number(number)`; its meaning is given by `Text.DecimalValueConcat` and `Text.GetNumberChar` |
| `Text.GetNumberConcat` | js/playerList.js:246 | `getNumber` of joined labels: the digits of the second label are the low-order digits of the number read from the joined label |
| `Text.GetNumberNoDigits` | js/playerList.js:246 | A label without digits reads as 0 (`Number("")`), never as NaN |
| `Text.GetNumberChar` | js/playerList.js:246 | One character contributes its digit value when it is a digit, and nothing otherwise |
| `Text.DigitsConcat` | js/playerList.js:246 | The digits matched by `/\d/g` in joined strings are the digits of each part, in order |
| `Text.DecimalValueConcat` | js/playerList.js:246 | `Number` of joined digit strings is the first value shifted by the second's length, plus the second value |
| `Text.StrLess` | js/playerList.js:251 | JavaScript `a < b` (and `b < a` for `a > b`) on strings; its meaning is given by `Text.StrLessIrreflexive`, `Text.StrLessAsymmetric`, `Text.StrLessTransitive`, `Text.StrLessTotal` and `Text.PrefixStrLess` |
| `Text.StrLessIrreflexive` | js/playerList.js:251 | JavaScript `a < b` on strings is irreflexive |
| `Text.StrLessAsymmetric` | js/playerList.js:251 | String `<` is asymmetric |
| `Text.StrLessTransitive` | js/playerList.js:251 | String `<` is transitive |
| `Text.StrLessTotal` | js/playerList.js:251 | Of two different strings, one is `<` the other |
| `Text.PrefixStrLess` | js/playerList.js:251 | A proper prefix sorts before the longer string |
| `Ranking.IndexOf` | js/playerList.js:249-250 | `arr.indexOf(x)`: -1 exactly when `x` is absent, otherwise the first position holding `x` |
| `Ranking.NegOneToInf` | js/playerList.js:247 | `indexOf`'s -1 becomes `Infinity`, so an unlisted value ranks after every position; its effect on the order is stated by `Ranking.SortWithArrayMeaning` |
| `Ranking.SortWithArray` | js/playerList.js:248-253 | `sortWithArray`; its meaning is `Ranking.SortWithArrayMeaning` (each sign tied both ways to `Precedes`) with `Ranking.PrecedesIsStrictTotalOrder` and `Ranking.PriorityOrderConsistent` |
| `Ranking.OccursFirstIndex` | js/playerList.js:249-252 | For two listed values, a smaller `indexOf` means the first is listed before the second occurs |
| `Ranking.SortWithArrayMeaning` | js/playerList.js:247-253 | `sortWithArray` is 0 exactly when `a == b`; it is negative exactly when `a` precedes `b` (listed before unlisted, listed by first position, the rest in string order) and positive exactly when `b` precedes `a` |
| `Ranking.PrecedesIsStrictTotalOrder` | js/playerList.js:248-253 | The order `sortWithArray` stands for is irreflexive, asymmetric, transitive and total |
| `Ranking.PriorityOrderConsistent` | js/playerList.js:248-253 | The sign of `sortWithArray` is a consistent comparator, so a sort by it is well defined |
| `JsNumber.Sub` | js/playerList.js:252 | `x - y` of two values that are not both the same infinity: zero exactly when they are equal, negative exactly when `x < y`, positive exactly when `y < x` |
| `JsNumber.Sign` | js/playerList.js:324-326 | The sign of a comparator result: -1, 0 or 1 exactly when it is negative, zero or positive |
| `JsNumber.LessIsStrictTotalOrder` | js/playerList.js:325 | The numeric order on `-Infinity`, integers and `Infinity` is a strict total order |
| `Overworld.NonDigitEnd` | js/playerList.js:230 | `\D+` taken greedily: the run of non-digits from a position ends at the end of the label or at a digit |
| `Overworld.WhitespaceEnd` | js/playerList.js:230 | `\s+` taken greedily: the run ends at the end of the label or at a non-whitespace character |
| `Overworld.DigitEnd` | js/playerList.js:230 | `\d+` taken greedily: the run ends at the end of the label or at a non-digit |
| `Overworld.OtherPart` | js/playerList.js:230 | `(?:\s+(?<other>\S+))?$` from a position: a found tag start is a valid separator and tag reaching the end |
| `Overworld.WithNumber` | js/playerList.js:230 | A result of the number group tried for an area is a match of the whole label with that area and a number |
| `Overworld.WithoutNumber` | js/playerList.js:230 | A result of the number group skipped is a match of the whole label with that area and no number |
| `Overworld.TryArea` | js/playerList.js:230 | A result for one area length is a match with that area |
| `Overworld.Search` | js/playerList.js:230 | The backtracking of the area returns only matches, with an area no longer than where it started |
| `Overworld.OverworldMatch` | js/playerList.js:230 | `exec` reports only real matches of the pattern |
| `Overworld.GroupsOf` | js/playerList.js:300 | `matches.groups`: the captured area, the number group or `undefined`, the tag or `undefined`; its value on concrete labels is stated by `OverworldExamples.LabelWithoutDigits`, `OverworldExamples.LabelWithNumberAndTag` and `OverworldExamples.LabelWithNumber` |
| `Overworld.ExecOverworld` | js/playerList.js:230 | The overworld `exec` never matches without groups |
| `Overworld.WithNumberExact` | js/playerList.js:230 | A match with a number is the one the number group builds for its area |
| `Overworld.WithoutNumberExact` | js/playerList.js:230 | A match without a number is the one the skipped group builds for its area |
| `Overworld.MatchUnique` | js/playerList.js:230 | Two matches with the same area that agree on having a number are equal |
| `Overworld.TryAreaComplete` | js/playerList.js:230 | Trying a match's area finds a match, with a number if that match has one |
| `Overworld.SearchComplete` | js/playerList.js:230 | Backtracking from beyond a match's area finds that match or one found before it |
| `Overworld.AreaWithinNonDigits` | js/playerList.js:230 | No match has an area longer than the non-digit prefix |
| `Overworld.OverworldMatchIsFirst` | js/playerList.js:230 | The pattern matches exactly when some match exists; the reported match has the longest area and, among those, a number if any has one; it is the only such match |
| `OverworldExamples.LabelWithoutDigits` | js/playerList.js:230 | A non-empty label without digits is all area, with an undefined number and tag |
| `OverworldExamples.LabelStartingWithDigit` | js/playerList.js:230 | A label starting with a digit does not match |
| `OverworldExamples.ReportedAfterBacktrack` | js/playerList.js:230 | When the longest area admits no group, a number match one character shorter is reported |
| `OverworldExamples.SingleSeparator` | js/playerList.js:230 | A match whose number follows the area after one whitespace character is the match reported |
| `OverworldExamples.LabelWithNumberAndTag` | js/playerList.js:230 | `area number tag`, single-spaced, gives the three groups |
| `OverworldExamples.LabelWithNumber` | js/playerList.js:230 | `area number` gives the area, the number and an undefined tag |
| `PlayerList.ParseLabel` | js/playerList.js:286-309 | No match gives `???`, `getNumber(label)` and `""`; a match without groups gives the `TypeError`; otherwise area as captured, `-Infinity` for a missing or empty number, `Number(number)` otherwise, and the tag or `""` |
| `PlayerList.MatchAll` | js/playerList.js:286-309 | `playerList.map`: fails with the `TypeError` exactly when some label matches without groups, and otherwise pairs each player, in order, with its parsed label |
| `PlayerList.InArea` | js/playerList.js:313-321 | The entries of one area are exactly the entries whose parsed area it is |
| `PlayerList.GroupNew` | js/playerList.js:315-319 | An entry whose area has no bucket yet opens one at the end, and the grouping invariant is kept |
| `PlayerList.GroupPush` | js/playerList.js:315-321 | An entry whose area has a bucket goes at the end of that bucket, and the grouping invariant is kept |
| `PlayerList.GroupByArea` | js/playerList.js:312-322 | The grouping is a partition: distinct keys that are exactly the parsed areas, in first-seen order, each bucket holding its area's entries in input order, all entries exactly once |
| `PlayerList.EntryCompare` | js/playerList.js:324-326 | The bucket comparator; its meaning is `PlayerList.EntryCompareMeaning`, with `PlayerList.EntryOrderConsistent` and `PlayerList.UnnumberedLast` |
| `PlayerList.SortBuckets` | js/playerList.js:323-327 | Each bucket becomes the stable sort of its entries by the bucket comparator; the areas are unchanged |
| `PlayerList.EntryCompareMeaning` | js/playerList.js:324-326 | The bucket comparator is zero exactly for equal number and tag, negative exactly when the first has the higher number or an equal number and a tag ranked first |
| `PlayerList.EntryOrderConsistent` | js/playerList.js:324-326 | The bucket comparator is consistent |
| `PlayerList.UnnumberedLast` | js/playerList.js:324-326 | An entry without a number (`-Infinity`, from line 305) goes after every numbered entry |
| `PlayerList.BucketSorted` | js/playerList.js:323-327 | A sorted bucket lists each entry before every later one or tied with it, is a permutation of the bucket, and keeps tied entries in input order |
| `PlayerList.FlattenToPlayers` | js/playerList.js:330 | Replacing entries by their players commutes with flattening the buckets |
| `PlayerList.ToPlayers` | js/playerList.js:329-330 | `grouped.map(...)` back to players; `PlayerList.FlattenToPlayers` and `PlayerList.BeforeSortPermutation` state that it keeps exactly the input players |
| `PlayerList.BeforeSortPermutation` | js/playerList.js:330 | The buckets before the final sort hold exactly the input players |
| `PlayerList.BucketOrderConsistent` | js/playerList.js:331 | The final comparator, `sortWithArray` on the areas, is consistent |
| `PlayerList.BucketOrder` | js/playerList.js:331 | The comparator of the final sort; `PlayerList.BucketOrderConsistent` and `PlayerList.SortOrder` state that sorting by it puts the buckets in strictly increasing area rank |
| `PlayerList.SortOrder` | js/playerList.js:331 | After the final sort, buckets with distinct areas go in strictly increasing area rank |
| `PlayerList.FinalSort` | js/playerList.js:329-331 | The final sort keeps the buckets, sorts them by area rank and keeps every player |
| `PlayerList.RankedKeysUnique` | js/playerList.js:331 | Two key lists in strictly increasing rank with the same keys are equal |
| `PlayerList.SortAreas` | js/playerList.js:285-334 | Throws `TypeError` exactly when some label matches without groups; otherwise returns the buckets `SortedAreasOf` describes, holding exactly the input players |
| `PlayerList.SortedAreasOfUnique` | js/playerList.js:285-334 | The description of the result leaves no choice: two results that meet it are equal |
| `PlayerList.SortedAreasOfEmpty` | js/playerList.js:285-334 | An empty player list gives an empty result |
| `PlayerList.SortAreasIdempotent` | js/playerList.js:285-334 | Sorting a result again: the players of a result, parsed by the same matcher, parse without error and describe that same result, so `sortAreas` on them returns it unchanged |
| `Sorting.IsStableSort` | js/playerList.js:324-326 | The sort returns a sorted permutation that keeps every class of tied elements in input order |
| `Sorting.Sort` | js/playerList.js:323-331 | `Array.prototype.sort` with a comparator; its meaning is `Sorting.IsStableSort` together with `Sorting.StableSortIsUnique`: the one sorted, stable permutation of its input |
| `Sorting.StableSortIsUnique` | js/playerList.js:331 | Any sorted, stable permutation equals the model's sort, so the engine's algorithm does not matter |
| `Sorting.SortOfSorted` | js/playerList.js:331 | Sorting a sorted list changes nothing |
| `Buckets.MapPermutation` | js/playerList.js:330 | Mapping a permutation gives a permutation |
| `Buckets.FlatMapPermutation` | js/playerList.js:331 | Reordering buckets keeps the multiset of their items |
| `Buckets.FlattenPointwise` | js/playerList.js:323-327 | Permuting inside each bucket keeps the multiset of all items |
| `Buckets.DistinctKeysPermutation` | js/playerList.js:331 | Reordering buckets keeps their keys distinct |
| `Buckets.KeysPermutation` | js/playerList.js:331 | Reordered buckets have the same keys |
| `OverworldPlayerList.OverworldNeverThrows` | js/playerList.js:288-299 | With the constant `Overworld.OverworldMatcher` (`areaMatcher.overworld`: `Overworld.ExecOverworld` and the two lists) the parse never throws |
| `OverworldPlayerList.ParseWithNumberAndTag` | js/playerList.js:300-307 | `area number tag` parses to the area, `Number(number)` and the tag |
| `OverworldPlayerList.ParseWithNumber` | js/playerList.js:300-307 | `area number` parses with the tag `""` |
| `OverworldPlayerList.ParseAreaNumberTag` | js/playerList.js:300-307 | "Exodus 150 VICTORY" parses to ("Exodus", 150, "VICTORY") |
| `OverworldPlayerList.ParseAreaNumber` | js/playerList.js:300-307 | "Exodus 10" parses to ("Exodus", 10, "") |
| `OverworldPlayerList.ParseAreaOnly` | js/playerList.js:305-306 | "The Lava Lakes" parses to the whole label, `-Infinity` and "" |
| `OverworldPlayerList.ParseUnmatched` | js/playerList.js:289-297 | "150 VICTORY" does not match and goes to ("???", 150, "") |
| `OverworldPlayerList.OverworldListedAreas` | js/playerList.js:237-242 | The constant `Overworld.OverworldAreas` (the `areas` list) ranks Exodus, April fools, Nightmare, then every unlisted area |
| `OverworldPlayerList.OverworldUnlistedAreas` | js/playerList.js:237-242 | Unlisted areas go in string order; Battlefield goes before Battlefield Advanced |
| `OverworldPlayerList.OverworldTagRanks` | js/playerList.js:231-236 | The constant `Overworld.OverworldOther` (the `other` list) ranks VICTORY, BOSS, FINALE, then the missing tag `""`, then every other tag |
| `OverworldPlayerList.ExodusBucketOrder` | js/playerList.js:324-326 | The Exodus players of the doc-comment example sort as 150 VICTORY, 50 VICTORY, 50 BOSS, 10 |

## Left out

- JavaScript numbers are IEEE-754 doubles. `Number(...)` of a long digit string loses
  precision or becomes `Infinity`. The model reads digit strings as exact naturals.
- A sort reads only the sign of a comparator's result. The model keeps the sign alone
  (`JsNumber.Sign`) and does not model the magnitudes.
- The internal algorithm of `Array.prototype.sort` is not part of the program. The model
  sorts with a stable insertion sort, and `Sorting.StableSortIsUnique` shows that every
  stable sort gives the same result.
- Arrays are mutated in place: `group[1].push(player)` changes an array that `grouped`
  shares, and `players.sort` and `final.sort` sort in place. The model works on sequence
  values that the loops reassign, so it does not model the aliasing.
- General regular expressions are not modelled. A matcher's `exec` is a function
  parameter, and only the overworld pattern is implemented.
- A matcher's number group is typed as a digit string. `Number(...)` of any other text
  is not modelled: it gives NaN, or a number that may be fractional, negative or
  infinite (decimal, signed, hexadecimal or exponent forms, surrounding whitespace,
  `Infinity`), and `JsNumber.Num` holds no fractions. Nor is an area group that does
  not take part.
- Strings are sequences of Unicode scalar values, but JavaScript compares UTF-16 code
  units. The two string orders differ only for characters outside the Basic
  Multilingual Plane.
- `throw` leaves `playerList.map` at the first label that matches without groups. The
  model returns the same `TypeError` as a `Failure` value. Nothing is mutated before the
  throw, so for a matcher whose `exec` keeps no state nothing else is lost.
- `exec` is modelled as a pure function of the label. That holds for a regular
  expression without the `g` or `y` flag, as the overworld matcher is. With either flag,
  `exec` reads and updates `lastIndex`, which carries from one label to the next inside
  `playerList.map`; the model does not capture that, so the contracts of
  `PlayerList.SortAreas` and `PlayerList.MatchAll` are stated only for stateless matchers.
- The `testData` fixture (js/playerList.js:7-218) and the `Game` type import
  (js/playerList.js:1-4) carry no logic.
