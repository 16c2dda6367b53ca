/**
 * Where the code and its evident intent part ways (the Findings of
 * README.md), the affected functions take a `Reading`: `AsWritten` follows
 * the code line by line and is what `process` does; `Intended` is the
 * corrected behaviour, about which the protocol properties are proved.
 */
module Readings {
  datatype Reading = AsWritten | Intended
}
