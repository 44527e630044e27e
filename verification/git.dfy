/**
 * What the explorer asks of the outside world: the git subprocess (one field per
 * `GitCmdClient` call) and JavaScript's `Date` parser. Every answer is taken as given.
 */
module GitOracle {

  /** The largest distance from the epoch, in milliseconds, a JavaScript `Date` can hold. */
  const MaxDateMillis: int := 8_640_000_000_000_000

  /** A valid `Date` value: `getTime()` of a successfully parsed date. */
  type Time = t: int | -MaxDateMillis <= t <= MaxDateMillis

  /** `Number.MAX_SAFE_INTEGER`, the time given to a branch with no commit of its own; it lies after every valid date. */
  const MaxSafeInteger: int := 9_007_199_254_740_991

  /** The raw text of each `GitCmdClient` call, as a function of its arguments. */
  datatype Client = Client(
    currentName: string,
    logGraph: string,
    containedBranches: string -> string,
    branches: string,
    logBetweenOldest: (string, string) -> string,
    logTime: string -> string,
    logParent: string -> string,
    revParse: string -> string)
}
