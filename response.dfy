/** The response side: eleven directives, each sent to the client under its own
    `HX-*` response header, and what flushing them does to a header map. */
module Responses {
  import opened Headers

  datatype Option<+T> = None | Some(value: T)

  /** A swap mode is a plain string; the library names nine conventional
      values but `Reswap` accepts any string. */
  type Swap = string

  const SwapInnerHtml: Swap := "innerHTML"
  const SwapOuterHtml: Swap := "outerHTML"
  const SwapTextContent: Swap := "textContent"
  const SwapBeforeBegin: Swap := "beforebegin"
  const SwapAfterBegin: Swap := "afterbegin"
  const SwapBeforeEnd: Swap := "beforeend"
  const SwapAfterEnd: Swap := "afterend"
  const SwapDelete: Swap := "delete"
  const SwapNone: Swap := "none"

  /** The directive values; "" means the directive is not set. */
  datatype HtmxResponse = HtmxResponse(
    location: string,
    pushUrl: string,
    redirect: string,
    refresh: string,
    replaceUrl: string,
    reswap: Swap,
    retarget: string,
    reselect: string,
    trigger: string,
    triggerAfterSettle: string,
    triggerAfterSwap: string)

  /** The zero value a new adapter starts from. */
  const Unset := HtmxResponse("", "", "", "", "", "", "", "", "", "", "")

  /** One name per directive, to speak about all eleven at once. */
  datatype Directive =
    | Location | PushUrl | Redirect | Refresh | ReplaceUrl | Reswap
    | Retarget | Reselect | Trigger | TriggerAfterSettle | TriggerAfterSwap

  const AllDirectives: set<Directive> :=
    {Location, PushUrl, Redirect, Refresh, ReplaceUrl, Reswap,
     Retarget, Reselect, Trigger, TriggerAfterSettle, TriggerAfterSwap}

  /** The response header each directive is written under; all eleven carry
      the `HX-` prefix. */
  function HeaderName(d: Directive): (name: string)
    ensures |name| > 3 && name[..3] == "HX-"
  {
    match d
    case Location => "HX-Location"
    case PushUrl => "HX-Push-URL"
    case Redirect => "HX-Redirect"
    case Refresh => "HX-Refresh"
    case ReplaceUrl => "HX-Replace-URL"
    case Reswap => "HX-Reswap"
    case Retarget => "HX-Retarget"
    case Reselect => "HX-Reselect"
    case Trigger => "HX-Trigger"
    case TriggerAfterSettle => "HX-Trigger-After-Settle"
    case TriggerAfterSwap => "HX-Trigger-After-Swap"
  }

  /** The eleven response header names. */
  function ResponseHeaderNames(): (names: set<string>)
    ensures forall d :: HeaderName(d) in names
    ensures forall name | name in names :: exists d :: HeaderName(d) == name
  {
    set d | d in AllDirectives :: HeaderName(d)
  }

  /** Distinct directives are written under distinct headers. */
  lemma HeaderNameInjective()
    ensures forall d, e | HeaderName(d) == HeaderName(e) :: d == e
  {
    DirectiveForInvertsHeaderName();
  }

  /** The directive a response header name belongs to, if any. */
  function DirectiveFor(name: string): (o: Option<Directive>)
    ensures o.Some? ==> HeaderName(o.value) == name
  {
    if name == "HX-Location" then Some(Location)
    else if name == "HX-Push-URL" then Some(PushUrl)
    else if name == "HX-Redirect" then Some(Redirect)
    else if name == "HX-Refresh" then Some(Refresh)
    else if name == "HX-Replace-URL" then Some(ReplaceUrl)
    else if name == "HX-Reswap" then Some(Reswap)
    else if name == "HX-Retarget" then Some(Retarget)
    else if name == "HX-Reselect" then Some(Reselect)
    else if name == "HX-Trigger" then Some(Trigger)
    else if name == "HX-Trigger-After-Settle" then Some(TriggerAfterSettle)
    else if name == "HX-Trigger-After-Swap" then Some(TriggerAfterSwap)
    else None
  }

  /** A directive's header name is recognised as that directive's. */
  lemma DirectiveForHeaderName(d: Directive)
    ensures DirectiveFor(HeaderName(d)) == Some(d)
  {
    match d
    case Location =>
    case PushUrl =>
    case Redirect =>
    case Refresh =>
    case ReplaceUrl =>
    case Reswap =>
    case Retarget =>
    case Reselect =>
    case Trigger =>
    case TriggerAfterSettle =>
    case TriggerAfterSwap =>
  }

  /** Every directive's header name is recognised as that directive's. */
  lemma DirectiveForInvertsHeaderName()
    ensures forall d :: DirectiveFor(HeaderName(d)) == Some(d)
  {
    forall d ensures DirectiveFor(HeaderName(d)) == Some(d) {
      DirectiveForHeaderName(d);
    }
  }

  /** The value a response holds for a directive; in the zero value it is "". */
  function Field(r: HtmxResponse, d: Directive): (value: string)
    ensures r == Unset ==> value == ""
  {
    match d
    case Location => r.location
    case PushUrl => r.pushUrl
    case Redirect => r.redirect
    case Refresh => r.refresh
    case ReplaceUrl => r.replaceUrl
    case Reswap => r.reswap
    case Retarget => r.retarget
    case Reselect => r.reselect
    case Trigger => r.trigger
    case TriggerAfterSettle => r.triggerAfterSettle
    case TriggerAfterSwap => r.triggerAfterSwap
  }

  /** What a setter does: overwrite one directive, keep the other ten. */
  function With(r: HtmxResponse, d: Directive, value: string): (r': HtmxResponse)
    ensures Field(r', d) == value
    ensures forall e | e != d :: Field(r', e) == Field(r, e)
  {
    match d
    case Location => r.(location := value)
    case PushUrl => r.(pushUrl := value)
    case Redirect => r.(redirect := value)
    case Refresh => r.(refresh := value)
    case ReplaceUrl => r.(replaceUrl := value)
    case Reswap => r.(reswap := value)
    case Retarget => r.(retarget := value)
    case Reselect => r.(reselect := value)
    case Trigger => r.(trigger := value)
    case TriggerAfterSettle => r.(triggerAfterSettle := value)
    case TriggerAfterSwap => r.(triggerAfterSwap := value)
  }

  /** A response is nothing more than its eleven directive values. */
  lemma FieldsDetermineResponse(r: HtmxResponse, s: HtmxResponse)
    requires forall d :: Field(r, d) == Field(s, d)
    ensures r == s
  {
    assert Field(r, Location) == Field(s, Location);
    assert Field(r, PushUrl) == Field(s, PushUrl);
    assert Field(r, Redirect) == Field(s, Redirect);
    assert Field(r, Refresh) == Field(s, Refresh);
    assert Field(r, ReplaceUrl) == Field(s, ReplaceUrl);
    assert Field(r, Reswap) == Field(s, Reswap);
    assert Field(r, Retarget) == Field(s, Retarget);
    assert Field(r, Reselect) == Field(s, Reselect);
    assert Field(r, Trigger) == Field(s, Trigger);
    assert Field(r, TriggerAfterSettle) == Field(s, TriggerAfterSettle);
    assert Field(r, TriggerAfterSwap) == Field(s, TriggerAfterSwap);
  }

  /** Setting a directive twice keeps only the last value. */
  lemma WithTwice(r: HtmxResponse, d: Directive, first: string, last: string)
    ensures With(With(r, d, first), d, last) == With(r, d, last)
  {
    FieldsDetermineResponse(With(With(r, d, first), d, last), With(r, d, last));
  }

  /** Setters of different directives commute, so the order of a chain of
      distinct setters does not matter. */
  lemma WithCommutes(r: HtmxResponse, d: Directive, a: string, e: Directive, b: string)
    requires d != e
    ensures With(With(r, d, a), e, b) == With(With(r, e, b), d, a)
  {
    FieldsDetermineResponse(With(With(r, d, a), e, b), With(With(r, e, b), d, a));
  }

  /** One step of the flush: write a directive's header when its value is
      non-empty, leave the map alone otherwise. */
  function SetIfPresent(headers: map<string, string>, r: HtmxResponse, d: Directive): map<string, string>
  {
    SetIfNonEmpty(headers, HeaderName(d), Field(r, d))
  }

  /** `Apply` takes one step per directive. */
  const StepCount: nat := 11

  /** The directive `Apply` visits at step `i`, counting from 0: the one
      whose position is `i`, so no directive is visited at two steps. */
  function OrderAt(i: nat): (d: Directive)
    requires i < StepCount
    ensures Position(d) == i
  {
    if i == 0 then Location
    else if i == 1 then PushUrl
    else if i == 2 then Redirect
    else if i == 3 then Refresh
    else if i == 4 then ReplaceUrl
    else if i == 5 then Reswap
    else if i == 6 then Retarget
    else if i == 7 then Reselect
    else if i == 8 then Trigger
    else if i == 9 then TriggerAfterSettle
    else TriggerAfterSwap
  }

  /** The step at which `Apply` visits a directive: one of the eleven. */
  function Position(d: Directive): (i: nat)
    ensures i < StepCount
  {
    match d
    case Location => 0
    case PushUrl => 1
    case Redirect => 2
    case Refresh => 3
    case ReplaceUrl => 4
    case Reswap => 5
    case Retarget => 6
    case Reselect => 7
    case Trigger => 8
    case TriggerAfterSettle => 9
    case TriggerAfterSwap => 10
  }

  /** The first `n` steps of `Apply`, taken one after another. */
  function ApplySteps(r: HtmxResponse, n: nat, headers: map<string, string>): map<string, string>
    requires n <= StepCount
  {
    if n == 0 then headers else SetIfPresent(ApplySteps(r, n - 1, headers), r, OrderAt(n - 1))
  }

  /** The header map after `Apply`: all eleven steps. */
  function Applied(r: HtmxResponse, headers: map<string, string>): map<string, string>
  {
    ApplySteps(r, StepCount, headers)
  }

  /** What the first `n` steps leave under `name`, if they write it at all:
      the value of the set directive among them whose header that is. */
  function Contribution(r: HtmxResponse, n: nat, name: string): Option<string>
  {
    match DirectiveFor(name)
    case Some(d) => if Position(d) < n && Field(r, d) != "" then Some(Field(r, d)) else None
    case None => None
  }

  /** Taking step `n` adds that step's directive to the contribution, and that
      directive can only contribute under its own header name. */
  lemma ContributionStep(r: HtmxResponse, n: nat, name: string)
    requires 0 < n <= StepCount
    ensures Contribution(r, n, name) ==
            if name == HeaderName(OrderAt(n - 1)) && Field(r, OrderAt(n - 1)) != ""
            then Some(Field(r, OrderAt(n - 1)))
            else Contribution(r, n - 1, name)
  {
    var last := OrderAt(n - 1);
    if name == HeaderName(last) {
      DirectiveForHeaderName(last);
    }
    if DirectiveFor(name).Some? {
      OrderAtPosition(DirectiveFor(name).value);
    }
  }

  /** Every directive is visited at the step its position names. */
  lemma OrderAtPosition(d: Directive)
    ensures OrderAt(Position(d)) == d
  {
    match d
    case Location =>
    case PushUrl =>
    case Redirect =>
    case Refresh =>
    case ReplaceUrl =>
    case Reswap =>
    case Retarget =>
    case Reselect =>
    case Trigger =>
    case TriggerAfterSettle =>
    case TriggerAfterSwap =>
  }

  /** Under each name the steps either leave their contribution or keep the
      entry the map had before. */
  lemma {:induction false} ApplyStepsAt(r: HtmxResponse, n: nat, headers: map<string, string>, name: string)
    requires n <= StepCount
    ensures Contribution(r, n, name).Some? ==>
              name in ApplySteps(r, n, headers) && ApplySteps(r, n, headers)[name] == Contribution(r, n, name).value
    ensures Contribution(r, n, name).None? ==>
              (name in ApplySteps(r, n, headers) <==> name in headers) &&
              (name in headers ==> ApplySteps(r, n, headers)[name] == headers[name])
  {
    if n != 0 {
      ApplyStepsAt(r, n - 1, headers, name);
      ContributionStep(r, n, name);
    }
  }

  /** The headers a response contributes, independent of any order: the
      header of every set directive, holding that directive's value. */
  function Written(r: HtmxResponse): (w: map<string, string>)
    ensures forall d :: HeaderName(d) in w <==> Field(r, d) != ""
    ensures forall d | HeaderName(d) in w :: w[HeaderName(d)] == Field(r, d)
    ensures w.Keys <= ResponseHeaderNames()
  {
    DirectiveForInvertsHeaderName();
    map name | name in ResponseHeaderNames() && DirectiveFor(name).Some? && Field(r, DirectiveFor(name).value) != ""
      :: Field(r, DirectiveFor(name).value)
  }

  /** Flushing overlays exactly the set directives on the existing headers. */
  lemma AppliedIsOverlay(r: HtmxResponse, headers: map<string, string>)
    ensures Applied(r, headers) == headers + Written(r)
  {
    var a, b := Applied(r, headers), headers + Written(r);
    forall name ensures (name in a <==> name in b) && (name in a ==> a[name] == b[name]) {
      ApplyStepsAt(r, StepCount, headers, name);
      match DirectiveFor(name)
      case None =>
        assert name !in Written(r);
      case Some(d) =>
        assert HeaderName(d) == name;
    }
    assert a.Keys == b.Keys;
  }

  /** `Apply`, header by header: a set directive's header holds its value, an
      unset directive's header keeps whatever it held, and every other header
      is untouched. */
  lemma AppliedHeaders(r: HtmxResponse, headers: map<string, string>)
    ensures forall d | Field(r, d) != "" ::
              HeaderName(d) in Applied(r, headers) && Applied(r, headers)[HeaderName(d)] == Field(r, d)
    ensures forall d | Field(r, d) == "" ::
              (HeaderName(d) in Applied(r, headers) <==> HeaderName(d) in headers) &&
              (HeaderName(d) in headers ==> Applied(r, headers)[HeaderName(d)] == headers[HeaderName(d)])
    ensures forall name | name !in ResponseHeaderNames() ::
              (name in Applied(r, headers) <==> name in headers) &&
              (name in headers ==> Applied(r, headers)[name] == headers[name])
  {
    AppliedIsOverlay(r, headers);
  }

  /** Flushing never removes a header and adds only response header names. */
  lemma AppliedKeepsNames(r: HtmxResponse, headers: map<string, string>)
    ensures headers.Keys <= Applied(r, headers).Keys <= headers.Keys + ResponseHeaderNames()
  {
    AppliedIsOverlay(r, headers);
  }

  /** A response with no directive set writes nothing. */
  lemma AppliedUnset(headers: map<string, string>)
    ensures Written(Unset) == map[]
    ensures Applied(Unset, headers) == headers
  {
    assert Written(Unset).Keys == {};
    AppliedIsOverlay(Unset, headers);
  }

  /** Flushing twice with no setter in between gives what flushing once gives. */
  lemma AppliedTwice(r: HtmxResponse, headers: map<string, string>)
    ensures Applied(r, Applied(r, headers)) == Applied(r, headers)
  {
    AppliedIsOverlay(r, headers);
    AppliedIsOverlay(r, Applied(r, headers));
  }

  /** Setting a directive to a non-empty value adds its header to those a
      flush writes and drops none. */
  lemma WrittenGrows(r: HtmxResponse, d: Directive, value: string)
    requires value != ""
    ensures Written(r).Keys + {HeaderName(d)} == Written(With(r, d, value)).Keys
  {
    forall name ensures name in Written(With(r, d, value)) <==> name in Written(r) || name == HeaderName(d) {
      WrittenGrowsAt(r, d, value, name);
    }
  }

  /** `WrittenGrows` at one header name. */
  lemma WrittenGrowsAt(r: HtmxResponse, d: Directive, value: string, name: string)
    requires value != ""
    ensures name in Written(With(r, d, value)) <==> name in Written(r) || name == HeaderName(d)
  {
    var r' := With(r, d, value);
    match DirectiveFor(name)
    case None =>
      DirectiveForHeaderName(d);
    case Some(e) =>
      DirectiveForHeaderName(d);
      if e != d {
        assert Field(r', e) == Field(r, e);
      }
  }

  /** A later overlay whose names cover an earlier one hides it. */
  lemma OverlayAbsorbs(headers: map<string, string>, earlier: map<string, string>, later: map<string, string>)
    requires earlier.Keys <= later.Keys
    ensures (headers + earlier) + later == headers + later
  {
  }

  /** The two-round idiom: set a further directive and flush again, and the
      headers are those one flush of the final response gives. */
  lemma AppliedAfterFurtherSetter(r: HtmxResponse, d: Directive, value: string, headers: map<string, string>)
    requires value != ""
    ensures Applied(With(r, d, value), Applied(r, headers)) == Applied(With(r, d, value), headers)
  {
    var r' := With(r, d, value);
    AppliedIsOverlay(r, headers);
    AppliedIsOverlay(r', Applied(r, headers));
    AppliedIsOverlay(r', headers);
    WrittenGrows(r, d, value);
    OverlayAbsorbs(headers, Written(r), Written(r'));
  }

  /** A second flush does not clear: a directive reset to "" after the first
      flush keeps the header the first flush wrote. */
  lemma AppliedDoesNotClear(r: HtmxResponse, d: Directive, headers: map<string, string>)
    requires Field(r, d) != ""
    ensures HeaderName(d) in Applied(With(r, d, ""), Applied(r, headers))
    ensures Applied(With(r, d, ""), Applied(r, headers))[HeaderName(d)] == Field(r, d)
  {
    AppliedHeaders(r, headers);
    AppliedHeaders(With(r, d, ""), Applied(r, headers));
  }

  /** After `Refresh(b)` the flush always writes `HX-Refresh`, as `"true"` or
      `"false"`. */
  lemma RefreshAlwaysWritten(r: HtmxResponse, b: bool, headers: map<string, string>)
    ensures "HX-Refresh" in Applied(With(r, Refresh, FormatBool(b)), headers)
    ensures Applied(With(r, Refresh, FormatBool(b)), headers)["HX-Refresh"] == (if b then "true" else "false")
  {
    AppliedHeaders(With(r, Refresh, FormatBool(b)), headers);
    assert HeaderName(Refresh) == "HX-Refresh";
  }

  /** On a fresh response, setting one directive makes the flush write exactly
      that directive's header, with the value given. */
  lemma WrittenSingle(d: Directive, value: string)
    requires value != ""
    ensures Written(With(Unset, d, value)) == map[HeaderName(d) := value]
  {
    var r' := With(Unset, d, value);
    var w := Written(r');
    forall name | name in w ensures name == HeaderName(d) {
      var e := DirectiveFor(name).value;
      assert Field(r', e) != "";
    }
    assert w.Keys == {HeaderName(d)};
  }

  /** Flushing a fresh response with one directive set adds exactly that
      directive's header. */
  lemma AppliedSingle(headers: map<string, string>, d: Directive, value: string)
    requires value != ""
    ensures headers + Written(With(Unset, d, value)) == headers[HeaderName(d) := value]
  {
    WrittenSingle(d, value);
  }
}
