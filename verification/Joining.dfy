/** Texts put together with a separator between them. */
module Joining {
  /** Python's sep.join(parts). */
  function Join(parts: seq<string>, sep: string): string {
    if parts == [] then "" else if |parts| == 1 then parts[0] else parts[0] + (sep + Join(parts[1..], sep))
  }
}
