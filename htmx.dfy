/** The adapter object: request facts read once from the request headers, and
    response directives that chainable setters accumulate and `Apply` flushes
    into a response header sink. */
module Adapter {
  import opened Headers
  import Requests
  import Responses

  class Htmx {
    var request: Requests.HtmxRequest
    var response: Responses.HtmxResponse

    /** The request headers the object was built from. */
    ghost const Source: HeaderSource

    /** The request facts are those of the headers the object was built from. */
    ghost predicate Valid()
      reads this
    {
      request == Requests.Parse(Source)
    }

    /** Reads the eight request headers once; no directive is set. */
    constructor NewUniversal(header: HeaderSource)
      ensures Source == header && Valid()
      ensures response == Responses.Unset
    {
      Source := header;
      request := Requests.Parse(header);
      response := Responses.Unset;
    }

    function IsRequest(): (b: bool)
      reads this
      ensures b == request.request
      ensures Valid() ==> (b <==> Requests.HxRequest in Source && Source[Requests.HxRequest] == "true")
    {
      request.request
    }

    function IsBoosted(): (b: bool)
      reads this
      ensures b == request.boosted
      ensures Valid() ==> (b <==> Requests.HxBoosted in Source && Source[Requests.HxBoosted] == "true")
    {
      request.boosted
    }

    function IsHistoryRestoreRequest(): (b: bool)
      reads this
      ensures b == request.historyRestoreRequest
      ensures Valid() ==>
                (b <==> Requests.HxHistoryRestoreRequest in Source && Source[Requests.HxHistoryRestoreRequest] == "true")
    {
      request.historyRestoreRequest
    }

    function GetPrompt(): (s: string)
      reads this
      ensures s == request.prompt
      ensures Valid() ==> s == GetHeader(Source, Requests.HxPrompt)
    {
      request.prompt
    }

    function GetTarget(): (s: string)
      reads this
      ensures s == request.target
      ensures Valid() ==> s == GetHeader(Source, Requests.HxTarget)
    {
      request.target
    }

    function GetTriggerName(): (s: string)
      reads this
      ensures s == request.triggerName
      ensures Valid() ==> s == GetHeader(Source, Requests.HxTriggerName)
    {
      request.triggerName
    }

    function GetTrigger(): (s: string)
      reads this
      ensures s == request.trigger
      ensures Valid() ==> s == GetHeader(Source, Requests.HxTrigger)
    {
      request.trigger
    }

    method Location(location: string) returns (self: Htmx)
      modifies this
      ensures self == this && request == old(request)
      ensures old(Valid()) ==> Valid()
      ensures response == Responses.With(old(response), Responses.Location, location)
    {
      response := response.(location := location);
      self := this;
    }

    method PushUrl(url: string) returns (self: Htmx)
      modifies this
      ensures self == this && request == old(request)
      ensures old(Valid()) ==> Valid()
      ensures response == Responses.With(old(response), Responses.PushUrl, url)
    {
      response := response.(pushUrl := url);
      self := this;
    }

    method Redirect(url: string) returns (self: Htmx)
      modifies this
      ensures self == this && request == old(request)
      ensures old(Valid()) ==> Valid()
      ensures response == Responses.With(old(response), Responses.Redirect, url)
    {
      response := response.(redirect := url);
      self := this;
    }

    /** Stores the flag in its string form, so it is never empty. */
    method Refresh(refresh: bool) returns (self: Htmx)
      modifies this
      ensures self == this && request == old(request)
      ensures old(Valid()) ==> Valid()
      ensures response == Responses.With(old(response), Responses.Refresh, FormatBool(refresh))
      ensures response.refresh == (if refresh then "true" else "false")
    {
      response := response.(refresh := FormatBool(refresh));
      self := this;
    }

    method ReplaceUrl(url: string) returns (self: Htmx)
      modifies this
      ensures self == this && request == old(request)
      ensures old(Valid()) ==> Valid()
      ensures response == Responses.With(old(response), Responses.ReplaceUrl, url)
    {
      response := response.(replaceUrl := url);
      self := this;
    }

    method Reswap(swap: Responses.Swap) returns (self: Htmx)
      modifies this
      ensures self == this && request == old(request)
      ensures old(Valid()) ==> Valid()
      ensures response == Responses.With(old(response), Responses.Reswap, swap)
    {
      response := response.(reswap := swap);
      self := this;
    }

    method Retarget(selector: string) returns (self: Htmx)
      modifies this
      ensures self == this && request == old(request)
      ensures old(Valid()) ==> Valid()
      ensures response == Responses.With(old(response), Responses.Retarget, selector)
    {
      response := response.(retarget := selector);
      self := this;
    }

    method Reselect(selector: string) returns (self: Htmx)
      modifies this
      ensures self == this && request == old(request)
      ensures old(Valid()) ==> Valid()
      ensures response == Responses.With(old(response), Responses.Reselect, selector)
    {
      response := response.(reselect := selector);
      self := this;
    }

    method Trigger(trigger: string) returns (self: Htmx)
      modifies this
      ensures self == this && request == old(request)
      ensures old(Valid()) ==> Valid()
      ensures response == Responses.With(old(response), Responses.Trigger, trigger)
    {
      response := response.(trigger := trigger);
      self := this;
    }

    method TriggerAfterSettle(trigger: string) returns (self: Htmx)
      modifies this
      ensures self == this && request == old(request)
      ensures old(Valid()) ==> Valid()
      ensures response == Responses.With(old(response), Responses.TriggerAfterSettle, trigger)
    {
      response := response.(triggerAfterSettle := trigger);
      self := this;
    }

    method TriggerAfterSwap(trigger: string) returns (self: Htmx)
      modifies this
      ensures self == this && request == old(request)
      ensures old(Valid()) ==> Valid()
      ensures response == Responses.With(old(response), Responses.TriggerAfterSwap, trigger)
    {
      response := response.(triggerAfterSwap := trigger);
      self := this;
    }

    /** Writes every set directive into the sink under its header name, in the
        fixed order; unset directives leave the sink's entries alone.  The
        object itself is not changed. */
    method Apply(header: HeaderSink) returns (self: Htmx)
      modifies header
      ensures self == this
      ensures header.headers == Responses.Applied(response, old(header.headers))
      ensures header.headers == old(header.headers) + Responses.Written(response)
    {
      var r := response;
      ghost var before := header.headers;
      ApplyStep(header, r, Responses.Location);
      assert header.headers == Responses.ApplySteps(r, 1, before);
      ApplyStep(header, r, Responses.PushUrl);
      assert header.headers == Responses.ApplySteps(r, 2, before);
      ApplyStep(header, r, Responses.Redirect);
      assert header.headers == Responses.ApplySteps(r, 3, before);
      ApplyStep(header, r, Responses.Refresh);
      assert header.headers == Responses.ApplySteps(r, 4, before);
      ApplyStep(header, r, Responses.ReplaceUrl);
      assert header.headers == Responses.ApplySteps(r, 5, before);
      ApplyStep(header, r, Responses.Reswap);
      assert header.headers == Responses.ApplySteps(r, 6, before);
      ApplyStep(header, r, Responses.Retarget);
      assert header.headers == Responses.ApplySteps(r, 7, before);
      ApplyStep(header, r, Responses.Reselect);
      assert header.headers == Responses.ApplySteps(r, 8, before);
      ApplyStep(header, r, Responses.Trigger);
      assert header.headers == Responses.ApplySteps(r, 9, before);
      ApplyStep(header, r, Responses.TriggerAfterSettle);
      assert header.headers == Responses.ApplySteps(r, 10, before);
      ApplyStep(header, r, Responses.TriggerAfterSwap);
      assert header.headers == Responses.ApplySteps(r, 11, before);
      Responses.AppliedIsOverlay(r, before);
      self := this;
    }
  }

  /** One step of `Apply`: set the directive's header only when its value is
      non-empty. */
  method ApplyStep(header: HeaderSink, r: Responses.HtmxResponse, d: Responses.Directive)
    modifies header
    ensures header.headers == Responses.SetIfPresent(old(header.headers), r, d)
  {
    if Responses.Field(r, d) != "" {
      header.Set(Responses.HeaderName(d), Responses.Field(r, d));
    }
  }

  /** The constructor for the net/http header shape. */
  method New(header: HeaderSource) returns (h: Htmx)
    ensures fresh(h) && h.Source == header && h.Valid()
    ensures h.response == Responses.Unset
  {
    h := new Htmx.NewUniversal(header);
  }

  /** The constructor for the fasthttp header shape, which reads the same. */
  method NewFastHttp(header: HeaderSource) returns (h: Htmx)
    ensures fresh(h) && h.Source == header && h.Valid()
    ensures h.response == Responses.Unset
  {
    h := new Htmx.NewUniversal(header);
  }

  /** Classifying a request without an object agrees with asking the object
      built from the same headers. */
  method IsRequestAgrees(header: HeaderSource) returns (viaObject: bool)
    ensures viaObject == Requests.IsHtmxRequest(header)
    ensures viaObject == Requests.IsFastHttpHtmxRequest(header)
  {
    var h := new Htmx.NewUniversal(header);
    viaObject := h.IsRequest();
  }

  /** A flush straight after construction writes no header. */
  method ApplyFresh(header: HeaderSource, sink: HeaderSink)
    modifies sink
    ensures sink.headers == old(sink.headers)
  {
    var h := new Htmx.NewUniversal(header);
    Responses.AppliedUnset(sink.headers);
    var _ := h.Apply(sink);
  }

  /** An htmx request for `#content`, answered with one trigger: the
      facts are read as sent, and the flush adds exactly `HX-Trigger`. */
  method TriggerExample(sink: HeaderSink)
    modifies sink
    ensures sink.headers == old(sink.headers)["HX-Trigger" := "saved"]
  {
    var headers := map["HX-Request" := "true", "HX-Target" := "#content"];
    var h := New(headers);
    assert h.IsRequest() && h.GetTarget() == "#content";
    assert !h.IsBoosted() && !h.IsHistoryRestoreRequest();
    assert h.GetPrompt() == "" && h.GetTriggerName() == "" && h.GetTrigger() == "";
    var chained := h.Trigger("saved");
    assert chained.response == Responses.With(Responses.Unset, Responses.Trigger, "saved");
    Responses.AppliedSingle(sink.headers, Responses.Trigger, "saved");
    chained := chained.Apply(sink);
  }
}
