/** What several modules share: the option type, and joining strings. */
module Wrappers {
  datatype Option<+T> = None | Some(value: T)

  /** `separator.join(parts)` */
  function Join(separator: string, parts: seq<string>): string {
    if parts == [] then ""
    else if |parts| == 1 then parts[0]
    else parts[0] + separator + Join(separator, parts[1..])
  }
}
