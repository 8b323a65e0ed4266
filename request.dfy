/** The request side: the eight `HX-*` headers an htmx client sends, and the
    facts the adapter extracts from them once, when it is constructed. */
module Requests {
  import opened Headers

  const HxRequest := "HX-Request"
  const HxBoosted := "HX-Boosted"
  const HxCurrentUrl := "HX-Current-URL"
  const HxHistoryRestoreRequest := "HX-History-Restore-Request"
  const HxPrompt := "HX-Prompt"
  const HxTarget := "HX-Target"
  const HxTriggerName := "HX-Trigger-Name"
  const HxTrigger := "HX-Trigger"

  /** Every header name the construction looks up. */
  const RequestHeaderNames: set<string> :=
    {HxRequest, HxBoosted, HxCurrentUrl, HxHistoryRestoreRequest, HxPrompt, HxTarget, HxTriggerName, HxTrigger}

  /** The request facts; fixed once the adapter is built. */
  datatype HtmxRequest = HtmxRequest(
    request: bool,
    boosted: bool,
    currentUrl: string,
    historyRestoreRequest: bool,
    prompt: string,
    target: string,
    triggerName: string,
    trigger: string)

  /** The facts of a request that carries none of the eight headers. */
  const NotHtmx := HtmxRequest(false, false, "", false, "", "", "", "")

  /** What `NewUniversal` extracts: a boolean field holds exactly when its header
      reads `"true"`, a string field copies its header's value. */
  function Parse(header: HeaderSource): HtmxRequest
  {
    HtmxRequest(
      request := GetHeader(header, HxRequest) == "true",
      boosted := GetHeader(header, HxBoosted) == "true",
      currentUrl := GetHeader(header, HxCurrentUrl),
      historyRestoreRequest := GetHeader(header, HxHistoryRestoreRequest) == "true",
      prompt := GetHeader(header, HxPrompt),
      target := GetHeader(header, HxTarget),
      triggerName := GetHeader(header, HxTriggerName),
      trigger := GetHeader(header, HxTrigger))
  }

  /** The classification of a request without building the adapter. */
  function IsHtmxRequest(header: HeaderSource): (b: bool)
    ensures b <==> HxRequest in header && header[HxRequest] == "true"
  {
    GetHeader(header, HxRequest) == "true"
  }

  /** The same classification for the fasthttp header shape, which reduces to
      the same lookup. */
  function IsFastHttpHtmxRequest(header: HeaderSource): (b: bool)
    ensures b <==> HxRequest in header && header[HxRequest] == "true"
  {
    GetHeader(header, HxRequest) == "true"
  }

  /** The three flags are exact matches against the literal `"true"`. */
  lemma ParseFlags(header: HeaderSource)
    ensures Parse(header).request <==> HxRequest in header && header[HxRequest] == "true"
    ensures Parse(header).boosted <==> HxBoosted in header && header[HxBoosted] == "true"
    ensures Parse(header).historyRestoreRequest <==>
              HxHistoryRestoreRequest in header && header[HxHistoryRestoreRequest] == "true"
  {
  }

  /** Case variants, other truthy spellings and an absent header all read as false. */
  lemma FlagRejectsVariants()
    ensures !Parse(map[HxRequest := "True"]).request
    ensures !Parse(map[HxRequest := "1"]).request
    ensures !Parse(map[]).request
    ensures Parse(map[HxRequest := "true"]).request
  {
  }

  /** The five string fields are the raw header values, "" when absent. */
  lemma ParseStrings(header: HeaderSource)
    ensures Parse(header).currentUrl == (if HxCurrentUrl in header then header[HxCurrentUrl] else "")
    ensures Parse(header).prompt == (if HxPrompt in header then header[HxPrompt] else "")
    ensures Parse(header).target == (if HxTarget in header then header[HxTarget] else "")
    ensures Parse(header).triggerName == (if HxTriggerName in header then header[HxTriggerName] else "")
    ensures Parse(header).trigger == (if HxTrigger in header then header[HxTrigger] else "")
  {
  }

  /** Only the eight `HX-*` headers matter: two sources that agree on them give
      the same facts. */
  lemma ParseReadsOnlyHxHeaders(h1: HeaderSource, h2: HeaderSource)
    requires forall name | name in RequestHeaderNames :: GetHeader(h1, name) == GetHeader(h2, name)
    ensures Parse(h1) == Parse(h2)
  {
    assert GetHeader(h1, HxRequest) == GetHeader(h2, HxRequest);
    assert GetHeader(h1, HxBoosted) == GetHeader(h2, HxBoosted);
    assert GetHeader(h1, HxCurrentUrl) == GetHeader(h2, HxCurrentUrl);
    assert GetHeader(h1, HxHistoryRestoreRequest) == GetHeader(h2, HxHistoryRestoreRequest);
    assert GetHeader(h1, HxPrompt) == GetHeader(h2, HxPrompt);
    assert GetHeader(h1, HxTarget) == GetHeader(h2, HxTarget);
    assert GetHeader(h1, HxTriggerName) == GetHeader(h2, HxTriggerName);
    assert GetHeader(h1, HxTrigger) == GetHeader(h2, HxTrigger);
  }

  /** A request carrying none of the eight headers is not an htmx request and
      has every field empty. */
  lemma ParseWithoutHxHeaders(header: HeaderSource)
    requires forall name | name in RequestHeaderNames :: name !in header
    ensures Parse(header) == NotHtmx
    ensures !IsHtmxRequest(header)
  {
    ParseReadsOnlyHxHeaders(header, map[]);
  }

  /** The classification predicates agree with the constructed facts. */
  lemma IsHtmxRequestAgrees(header: HeaderSource)
    ensures IsHtmxRequest(header) == Parse(header).request
    ensures IsFastHttpHtmxRequest(header) == Parse(header).request
  {
  }

  /** The value an htmx client sends under `name` for given facts: a flag as
      `"true"` when it holds, a string as itself; "" means nothing is sent. */
  function SentValue(r: HtmxRequest, name: string): string
  {
    if name == HxRequest then (if r.request then "true" else "")
    else if name == HxBoosted then (if r.boosted then "true" else "")
    else if name == HxCurrentUrl then r.currentUrl
    else if name == HxHistoryRestoreRequest then (if r.historyRestoreRequest then "true" else "")
    else if name == HxPrompt then r.prompt
    else if name == HxTarget then r.target
    else if name == HxTriggerName then r.triggerName
    else if name == HxTrigger then r.trigger
    else ""
  }

  /** The headers an htmx client sends for given facts. */
  function HeadersFor(r: HtmxRequest): (header: HeaderSource)
    ensures header.Keys <= RequestHeaderNames
    ensures forall name | name in header :: header[name] != ""
  {
    map name | name in RequestHeaderNames && SentValue(r, name) != "" :: SentValue(r, name)
  }

  /** Construction recovers the facts from the headers a client sends for them. */
  lemma {:induction false} ParseHeadersFor(r: HtmxRequest)
    ensures Parse(HeadersFor(r)) == r
  {
    var h := HeadersFor(r);
    assert GetHeader(h, HxRequest) == (if r.request then "true" else "");
    assert GetHeader(h, HxBoosted) == (if r.boosted then "true" else "");
    assert GetHeader(h, HxHistoryRestoreRequest) == (if r.historyRestoreRequest then "true" else "");
    assert GetHeader(h, HxCurrentUrl) == r.currentUrl;
    assert GetHeader(h, HxPrompt) == r.prompt;
    assert GetHeader(h, HxTarget) == r.target;
    assert GetHeader(h, HxTriggerName) == r.triggerName;
    assert GetHeader(h, HxTrigger) == r.trigger;
  }
}
