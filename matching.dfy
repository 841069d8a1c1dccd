/**
 * What `sortAreas` needs from an area matcher: a regular expression whose `exec`
 * reports no match, a match without named groups, or the named groups `area`,
 * `number` and `other`, and the two priority lists that rank `other` tags and areas.
 */
module Matching {
  import opened Wrappers
  import opened Text

  /**
   * The named groups of a match. `number` and `other` are `None` when their group did
   * not take part (JavaScript's `undefined`); the number group captures digits.
   */
  datatype Groups = Groups(area: string, number: Option<DigitString>, other: Option<string>)

  datatype ExecResult = NoMatch | Matched(groups: Option<Groups>)

  /** `{ regex, other, areas }`; the regular expression is given by its `exec`. */
  datatype AreaMatcher = AreaMatcher(exec: string -> ExecResult, other: seq<string>, areas: seq<string>)
}
