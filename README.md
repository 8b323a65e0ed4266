# go-htmx adapter, modelled in Dafny

`htmx.go` is a small server-side adapter for htmx. From the request headers it
reads eight `HX-*` headers once, when the adapter object is built. It lets a
handler collect response directives through eleven chainable setters. `Apply`
then flushes the directives that are set into the response headers.

The model has four modules:

- `Headers` (`headers.dfy`) holds what is shared. The request headers are a
  `map<string, string>`, and `GetHeader` reads an absent name as `""`.
  `FormatBool` is Go's `strconv.FormatBool`. The response sink is the class
  `HeaderSink`, whose `Set` overwrites one entry.
- `Requests` (`request.dfy`) covers construction. `Parse` is the record
  `NewUniversal` builds: flags are an exact match against `"true"`, and strings
  are copied unchanged. `IsHtmxRequest` and `IsFastHttpHtmxRequest` are the
  object-free classification. `HeadersFor` is the reverse direction: the headers
  a client sends for given facts. `Parse` recovers the facts from them.
- `Responses` (`response.dfy`) covers the directive record and the flush,
  stated on values:
  - `Directive` names the eleven fields; `Field` and `With` read and replace
    one field.
  - `Applied` is the flush as written: eleven conditional writes, in the order
    of the source.
  - `Written` is an order-free reference: the header of every non-empty
    directive, mapped to that directive's value.
  - `AppliedIsOverlay` proves that `Applied` is the old headers overlaid with
    `Written`. The other flush properties follow from it.
- `Adapter` (`htmx.dfy`) holds the class `Htmx`:
  - its `request` and `response` fields are what the Go struct holds;
  - a ghost `Source` records the headers it was built from, and `Valid()`
    ties `request` to `Parse(Source)`;
  - the seven read accessors are functions;
  - each of the eleven setters is a `modifies this` method that returns the
    object;
  - `Apply` is a method that updates a `HeaderSink` one directive at a time.
    It is then proved equal to `Applied` and to the overlay with `Written`.

The source's `Apply` calls `header.Set` with a literal name and field in each
of its eleven `if` statements. The model writes that literal pair once, in the
`HeaderName` and `Field` tables, and runs the same conditional step
(`ApplyStep`) for each directive in the same order.

## Model

| member | source | states |
|---|---|---|
| Headers.GetHeader | htmx.go:213-223 | a present name reads its value; an absent name reads as "" |
| Headers.FormatBool | htmx.go:136-139 | the result is "true" or "false", and it is "true" exactly when the flag holds |
| Headers.HeaderSink.Set | htmx.go:52-54 | the sink's entry for the key becomes the value; no other entry changes |
| Requests.IsHtmxRequest | htmx.go:85-87 | true exactly when `HX-Request` is present with the value "true" |
| Requests.IsFastHttpHtmxRequest | htmx.go:89-91 | the same exact-match test on `HX-Request` for the second header shape |
| Requests.Parse | htmx.go:71-80 | the record `NewUniversal` builds (no contract of its own): its flags and strings are stated by `ParseFlags` and `ParseStrings`, its inverse by `ParseHeadersFor` |
| Requests.ParseFlags | htmx.go:72-75 | each of the three flags holds exactly when its header is present and equal to "true" |
| Requests.FlagRejectsVariants | htmx.go:72 | "True", "1" and an absent `HX-Request` give false; "true" gives true |
| Requests.ParseStrings | htmx.go:74-79 | each of the five string facts is its header's raw value, or "" when the header is absent |
| Requests.ParseReadsOnlyHxHeaders | htmx.go:69-80 | two header sources that agree on the eight names give the same facts |
| Requests.ParseWithoutHxHeaders | htmx.go:69-87 | without any of the eight headers, every fact is false or "" and the request is not classified as htmx |
| Requests.IsHtmxRequestAgrees | htmx.go:85-91 | both classification functions equal the constructed `request` flag |
| Requests.HeadersFor | htmx.go:69-80 | the headers sent for given facts use only the eight names, and none of them is empty |
| Requests.ParseHeadersFor | htmx.go:69-80 | construction recovers every fact from the headers sent for it (left inverse) |
| Responses.HeaderName | htmx.go:178-208 | the literal header name each `Set` call uses, one per directive; every one carries the `HX-` prefix |
| Responses.ResponseHeaderNames | htmx.go:176-211 | the eleven header names the flush can write, one per directive |
| Responses.HeaderNameInjective | htmx.go:176-211 | distinct directives are written under distinct header names |
| Responses.DirectiveFor | htmx.go:176-211 | a recognised header name belongs to the directive written under it |
| Responses.DirectiveForInvertsHeaderName | htmx.go:176-211 | every directive's header name is recognised as that directive's |
| Responses.Field | htmx.go:30-42 | the value a response holds for a directive; in the zero value `HtmxResponse{}` (htmx.go:81) every one is "" |
| Responses.With | htmx.go:121-174 | a setter gives its own field the argument and leaves the other ten fields unchanged |
| Responses.FieldsDetermineResponse | htmx.go:30-42 | responses that agree on all eleven fields are equal |
| Responses.WithTwice | htmx.go:121-174 | setting a field twice keeps only the last value |
| Responses.WithCommutes | htmx.go:121-174 | setters for different fields can be called in either order |
| Headers.SetIfNonEmpty | htmx.go:177-179 | one `if v != "" { header.Set(k, v) }` step (no contract of its own); its effect under every name is stated by `Responses.ApplyStepsAt` |
| Responses.SetIfPresent | htmx.go:177-179 | the same step for one directive's header name and value (no contract of its own) |
| Responses.Position | htmx.go:176-209 | every directive is visited at one of the eleven steps, numbered below eleven |
| Responses.OrderAt | htmx.go:176-209 | the directive of each of the eleven `if`s, in source order; step i visits a directive whose position is i, so no directive is visited at two steps |
| Responses.OrderAtPosition | htmx.go:176-209 | every directive is visited at the step its position names |
| Responses.ApplySteps | htmx.go:177-209 | the first n of the eleven conditional writes, in order (no contract of its own); what they leave under each name is stated by `ApplyStepsAt` |
| Responses.Applied | htmx.go:176-211 | all eleven conditional writes (no contract of its own); stated by `AppliedIsOverlay` as an overlay with `Written` |
| Responses.ApplyStepsAt | htmx.go:176-209 | after the first n steps, a name holds the value of the visited set directive written under it, or else it keeps its entry from before |
| Responses.Written | htmx.go:176-209 | a directive's header is written exactly when its field is non-empty, it holds that field's value, and only the eleven names occur |
| Responses.AppliedIsOverlay | htmx.go:176-211 | the flush gives the old headers overlaid with exactly the non-empty directives |
| Responses.AppliedHeaders | htmx.go:176-209 | a set directive's header holds its value; an unset directive's header keeps its old entry or stays absent; every other name is untouched |
| Responses.AppliedKeepsNames | htmx.go:176-209 | the flush never removes a header and adds only the eleven response header names |
| Responses.AppliedUnset | htmx.go:81 | a fresh response writes nothing, and its flush leaves the headers unchanged |
| Responses.AppliedTwice | htmx.go:176-211 | flushing twice with no setter in between gives what one flush gives |
| Responses.WrittenGrows | htmx.go:121-174 | setting a directive to a non-empty value adds its header to the written names and drops none |
| Responses.AppliedAfterFurtherSetter | htmx.go:176-211 | setting one more non-empty directive and flushing again gives what one flush of the final response gives |
| Responses.AppliedDoesNotClear | htmx.go:176-209 | resetting a written directive to "" and flushing again keeps the header the first flush wrote |
| Responses.RefreshAlwaysWritten | htmx.go:186-188 | after `Refresh(b)` the flush always writes `HX-Refresh`, as "true" or "false" |
| Responses.WrittenSingle | htmx.go:176-209 | on a fresh response, one non-empty directive makes the flush write exactly that one header |
| Responses.AppliedSingle | htmx.go:176-209 | flushing such a response adds exactly that header to the sink |
| Adapter.Htmx.NewUniversal | htmx.go:69-83 | the facts are those parsed from the given headers, and no directive is set |
| Adapter.Htmx.IsRequest | htmx.go:93-95 | returns the stored flag, which holds exactly when `HX-Request` was "true" |
| Adapter.Htmx.IsBoosted | htmx.go:97-99 | returns the stored flag, which holds exactly when `HX-Boosted` was "true" |
| Adapter.Htmx.IsHistoryRestoreRequest | htmx.go:101-103 | returns the stored flag, which holds exactly when `HX-History-Restore-Request` was "true" |
| Adapter.Htmx.GetPrompt | htmx.go:105-107 | returns the raw `HX-Prompt` value, or "" |
| Adapter.Htmx.GetTarget | htmx.go:109-111 | returns the raw `HX-Target` value, or "" |
| Adapter.Htmx.GetTriggerName | htmx.go:113-115 | returns the raw `HX-Trigger-Name` value, or "" |
| Adapter.Htmx.GetTrigger | htmx.go:117-119 | returns the raw `HX-Trigger` value, or "" |
| Adapter.Htmx.Location | htmx.go:121-124 | returns the same object; only `location` changes, to the argument; request facts unchanged; `Valid()` is preserved |
| Adapter.Htmx.PushUrl | htmx.go:126-129 | returns the same object; only `pushUrl` changes, to the argument; request facts unchanged; `Valid()` is preserved |
| Adapter.Htmx.Redirect | htmx.go:131-134 | returns the same object; only `redirect` changes, to the argument; request facts unchanged; `Valid()` is preserved |
| Adapter.Htmx.Refresh | htmx.go:136-139 | returns the same object; only `refresh` changes, to "true" or "false" as the flag says; request facts unchanged; `Valid()` is preserved |
| Adapter.Htmx.ReplaceUrl | htmx.go:141-144 | returns the same object; only `replaceUrl` changes, to the argument; request facts unchanged; `Valid()` is preserved |
| Adapter.Htmx.Reswap | htmx.go:146-149 | returns the same object; only `reswap` changes, to the argument; request facts unchanged; `Valid()` is preserved |
| Adapter.Htmx.Retarget | htmx.go:151-154 | returns the same object; only `retarget` changes, to the argument; request facts unchanged; `Valid()` is preserved |
| Adapter.Htmx.Reselect | htmx.go:156-159 | returns the same object; only `reselect` changes, to the argument; request facts unchanged; `Valid()` is preserved |
| Adapter.Htmx.Trigger | htmx.go:161-164 | returns the same object; only `trigger` changes, to the argument; request facts unchanged; `Valid()` is preserved |
| Adapter.Htmx.TriggerAfterSettle | htmx.go:166-169 | returns the same object; only `triggerAfterSettle` changes, to the argument; request facts unchanged; `Valid()` is preserved |
| Adapter.Htmx.TriggerAfterSwap | htmx.go:171-174 | returns the same object; only `triggerAfterSwap` changes, to the argument; request facts unchanged; `Valid()` is preserved |
| Adapter.Htmx.Apply | htmx.go:176-211 | returns the same object and changes only the sink, which becomes the eleven-step flush of the old sink, i.e. the old sink overlaid with the non-empty directives |
| Adapter.ApplyStep | htmx.go:177-179 | one `if`: the directive's header is set only when its value is non-empty |
| Adapter.New | htmx.go:61-63 | a fresh object built from the headers, with facts parsed and no directive set |
| Adapter.NewFastHttp | htmx.go:65-67 | the same for the second header shape |
| Adapter.IsRequestAgrees | htmx.go:85-95 | `IsHtmxRequest(h)` and `IsFastHttpHtmxRequest(h)` equal `IsRequest()` on the object built from `h` |
| Adapter.ApplyFresh | htmx.go:81 | a flush straight after construction leaves the sink unchanged |
| Adapter.TriggerExample | htmx.go:176-211 | a request with `HX-Request: true` and `HX-Target: #content`, answered with `Trigger("saved")`, adds exactly `HX-Trigger: saved` to the sink |

## Left out

- The dynamic type switch in `getHeader` and its `panic("unsupported header type")` (htmx.go:213-223) are not modelled. In the source a nil header or a header of any other type, for example `New(nil)` or `IsHtmxRequest(nil)`, reaches that panic; the model has only map-valued header sources, so it has no such input and no panicking path.
- The `RequestHeader` and `FastHttpRequestHeader` interfaces (htmx.go:44-50) are one map in the model. The variadic default of the second is never passed, so both perform the same lookup.
- HTTP header canonicalisation and multi-valued headers are left out. A name matches only when it is spelled exactly as looked up, and it has one value.
- `strconv.FormatBool` is written out as `FormatBool` rather than called as a library.
- The nine `Swap` constants are declared as strings, but `Reswap` accepts any string, as in the source. No enumeration is enforced.
- `ResponseHeader.Set` belongs to the host framework. The model treats it as an overwrite of one map entry. What a real framework does beyond that is not modelled.
- Concurrency and the HTTP server around the adapter are left out. Neither is in the source.
- Only the seven accessors the source defines are modelled. The source has no accessor for `CurrentUrl`; the field is readable only through `request.currentUrl`.
