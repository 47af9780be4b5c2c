/** Error chains and their classification into the bounded set of failure labels. */
module Failures {
  import opened Wrappers

  datatype Kind = Captcha | Http403 | Http429 | BotBlock | Timeout | UpstreamError | BadResponse | Other

  function KindName(k: Kind): string {
    match k
    case Captcha => "captcha"
    case Http403 => "http_403"
    case Http429 => "http_429"
    case BotBlock => "bot_block"
    case Timeout => "timeout"
    case UpstreamError => "upstream_error"
    case BadResponse => "bad_response"
    case Other => "error"
  }

  // A FetchError may wrap its cause; Wrapped is a message around an error.
  datatype Error =
    | Plain(text: string)
    | DeadlineExceeded
    | Canceled
    | StatusError(code: int)
    | FetchError(kind: Kind, status: int, marker: string, cause: Option<Error>)
    | Wrapped(text: string, inner: Error)

  /** One step down the chain. */
  function Unwrap(e: Error): (u: Option<Error>)
    ensures u.Some? ==> u.value < e
  {
    match e
    case FetchError(_, _, _, cause) => cause
    case Wrapped(_, inner) => Some(inner)
    case _ => None
  }

  /** Whether a deadline or a cancellation is anywhere in the chain. */
  predicate IsContextError(e: Error) {
    e == DeadlineExceeded || e == Canceled || (Unwrap(e).Some? && IsContextError(Unwrap(e).value))
  }

  /** The code of the first StatusError in the chain. */
  function AsStatus(e: Error): Option<int> {
    match e
    case StatusError(code) => Some(code)
    case _ => if Unwrap(e).Some? then AsStatus(Unwrap(e).value) else None
  }

  /** The kind of the first FetchError in the chain. */
  function AsFetch(e: Error): Option<Kind> {
    match e
    case FetchError(kind, _, _, _) => Some(kind)
    case _ => if Unwrap(e).Some? then AsFetch(Unwrap(e).value) else None
  }

  function KindForStatus(code: int): Kind {
    if code == 403 then Http403
    else if code == 429 then Http429
    else if code >= 500 then UpstreamError
    else Other
  }

  /** A client error as a classified one; the fallback decides an ambiguous 5xx. */
  function ClassifyClientError(e: Error, fallback: Kind): Error {
    match AsStatus(e)
    case Some(code) => FetchError(if code >= 500 then fallback else KindForStatus(code), code, "", Some(e))
    case None =>
      if IsContextError(e) then FetchError(Timeout, 0, "", Some(e))
      else FetchError(fallback, 0, "", Some(e))
  }

  /** The metric label of a crawl's outcome. */
  function Reason(e: Option<Error>): string {
    match e
    case None => "ok"
    case Some(err) =>
      match AsFetch(err)
      case Some(kind) => KindName(kind)
      case None => if IsContextError(err) then KindName(Timeout) else KindName(Other)
  }

  /** An error and everything it wraps, outermost first. */
  function Chain(e: Error): seq<Error> {
    match e
    case FetchError(_, _, _, Some(cause)) => [e] + Chain(cause)
    case Wrapped(_, inner) => [e] + Chain(inner)
    case _ => [e]
  }

  lemma {:induction false} ContextErrorMeans(e: Error)
    ensures IsContextError(e) <==> DeadlineExceeded in Chain(e) || Canceled in Chain(e)
  {
    if Unwrap(e).Some? {
      ContextErrorMeans(Unwrap(e).value);
    }
  }

  ghost predicate FirstStatus(e: Error, i: nat) {
    i < |Chain(e)| && Chain(e)[i].StatusError? && forall j :: 0 <= j < i ==> !Chain(e)[j].StatusError?
  }

  /** The status is that of the outermost status error. */
  lemma {:induction false} StatusMeans(e: Error)
    ensures AsStatus(e).None? ==> forall i :: 0 <= i < |Chain(e)| ==> !Chain(e)[i].StatusError?
    ensures AsStatus(e).Some? ==> exists i: nat :: FirstStatus(e, i) && Chain(e)[i].code == AsStatus(e).value
  {
    if e.StatusError? {
      assert FirstStatus(e, 0);
    } else if Unwrap(e).Some? {
      var inner := Unwrap(e).value;
      StatusMeans(inner);
      assert Chain(e) == [e] + Chain(inner);
      if AsStatus(inner).Some? {
        var i: nat :| FirstStatus(inner, i) && Chain(inner)[i].code == AsStatus(inner).value;
        assert FirstStatus(e, i + 1);
      }
    }
  }

  ghost predicate FirstFetch(e: Error, i: nat) {
    i < |Chain(e)| && Chain(e)[i].FetchError? && forall j :: 0 <= j < i ==> !Chain(e)[j].FetchError?
  }

  /** The kind is that of the outermost classified error. */
  lemma {:induction false} FetchMeans(e: Error)
    ensures AsFetch(e).None? ==> forall i :: 0 <= i < |Chain(e)| ==> !Chain(e)[i].FetchError?
    ensures AsFetch(e).Some? ==> exists i: nat :: FirstFetch(e, i) && Chain(e)[i].kind == AsFetch(e).value
  {
    if e.FetchError? {
      assert FirstFetch(e, 0);
    } else if Unwrap(e).Some? {
      var inner := Unwrap(e).value;
      FetchMeans(inner);
      assert Chain(e) == [e] + Chain(inner);
      if AsFetch(inner).Some? {
        var i: nat :| FirstFetch(inner, i) && Chain(inner)[i].kind == AsFetch(inner).value;
        assert FirstFetch(e, i + 1);
      }
    }
  }

  /** A classified client error wraps its cause and carries its status, and its label is
      that of a 429, of an ended context, or the caller's fallback. */
  lemma ClassifiedAs(e: Error, fallback: Kind)
    ensures var c := ClassifyClientError(e, fallback);
      && c.FetchError? && c.cause == Some(e) && c.marker == ""
      && c.status == (if AsStatus(e).Some? then AsStatus(e).value else 0)
      && Reason(Some(c)) ==
         match AsStatus(e)
         case Some(code) =>
           if code >= 500 then KindName(fallback)
           else if code == 429 then "http_429" else if code == 403 then "http_403" else "error"
         case None => if DeadlineExceeded in Chain(e) || Canceled in Chain(e) then "timeout" else KindName(fallback)
  {
    ContextErrorMeans(e);
  }

  function WrapAll(e: Error, texts: seq<string>): Error {
    if texts == [] then e else Wrapped(texts[|texts| - 1], WrapAll(e, texts[..|texts| - 1]))
  }

  /** Wrapping an error in any number of messages never changes its label. */
  lemma {:induction false} WrappingKeepsReason(e: Error, texts: seq<string>)
    ensures Reason(Some(WrapAll(e, texts))) == Reason(Some(e))
  {
    if texts != [] {
      WrappingKeepsReason(e, texts[..|texts| - 1]);
    }
  }

  /** The label keeps the kinds apart, so a label read off a metric tells the kind. */
  lemma LabelsAreDistinct(a: Kind, b: Kind)
    ensures KindName(a) == KindName(b) ==> a == b
    ensures KindName(a) != "ok"
  {
    assert |KindName(Captcha)| == 7 && |KindName(Http403)| == 8 && |KindName(Http429)| == 8 && |KindName(BotBlock)| == 9;
    assert |KindName(Timeout)| == 7 && |KindName(UpstreamError)| == 14 && |KindName(BadResponse)| == 12;
    assert |KindName(Other)| == 5;
    assert "captcha"[0] == 'c' && "timeout"[0] == 't';
    assert "http_403"[5] == '4' && "http_403"[6] == '0' && "http_429"[6] == '2';
  }
}
