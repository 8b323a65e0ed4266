/** Header access shared by the request side and the response side of the adapter.

    A request's headers are seen through one lookup: a name maps to at most one
    value, and a name that is absent reads as the empty string.  Both header
    shapes the library accepts (a plain `Get(key)` and a `Get(key, defaults...)`
    that is never given a default) reduce to this lookup.  The response side is
    a sink object whose `Set` overwrites the value stored under a name.
 */
module Headers {

  /** The request headers as the adapter sees them. */
  type HeaderSource = map<string, string>

  /** The adapter's single lookup: the header's value, or "" when it is absent. */
  function GetHeader(header: HeaderSource, key: string): (value: string)
    ensures key in header ==> value == header[key]
    ensures key !in header ==> value == ""
  {
    if key in header then header[key] else ""
  }

  /** Go's `strconv.FormatBool`: the two spellings of a boolean, which the
      request side's exact-match coercion (`== "true"`) reads back. */
  function FormatBool(b: bool): (s: string)
    ensures s == "true" || s == "false"
    ensures (s == "true") == b
  {
    if b then "true" else "false"
  }

  /** A conditional write: `key` takes `value` only when `value` is non-empty. */
  function SetIfNonEmpty(headers: map<string, string>, key: string, value: string): map<string, string>
  {
    if value != "" then headers[key := value] else headers
  }

  /** The response-header sink: `Set` replaces whatever the name held. */
  class HeaderSink {
    var headers: map<string, string>

    constructor (initial: map<string, string>)
      ensures headers == initial
    {
      headers := initial;
    }

    method Set(key: string, value: string)
      modifies this
      ensures headers == old(headers)[key := value]
    {
      headers := headers[key := value];
    }
  }
}
