/**
 * The `/proxy` route of the relay server: the target check and transport choice, the
 * redirect remapping, the header relay and the `responseSent` guard shared by the
 * response, error and timeout callbacks of one request.
 *
 * The upstream request is not performed: its outcomes arrive as calls of OnResponse,
 * OnError and OnTimeout, in any order and any number of times. Express's `res` is the
 * class Response, which records every terminal write in `log`.
 */
module ProxyRelay {
  import opened Wrappers
  import opened Strings
  import Url
  import UriComponent
  import opened HeaderPolicy

  /** The upstream socket timeout, in milliseconds. */
  const UpstreamTimeoutMs := 15000

  const MissingUrlText := "Missing url parameter"

  const RedirectPrefix := "/proxy?url="

  /** The status Express's res.redirect sends when none is given. */
  const RedirectStatus := 302

  /** Node's https module or its plaintext http module. */
  datatype Transport = Plain | Encrypted

  /** The protocol each module's default agent serves. */
  function AgentProtocol(t: Transport): string
  {
    if t == Encrypted then "https:" else "http:"
  }

  /**
   * The module chosen for a parsed target: https for `https:`, else http. Its agent
   * serves the target's protocol exactly when that is `http:` or `https:`.
   */
  function TransportFor(u: Url.Url): (t: Transport)
    ensures t == Encrypted <==> Url.Protocol(u) == "https:"
    ensures AgentProtocol(t) == Url.Protocol(u) <==> Url.Protocol(u) in {"http:", "https:"}
  {
    if Url.Protocol(u) == "https:" then Encrypted else Plain
  }

  /** The message of the error node's get throws for a protocol its agent does not serve. */
  function ProtocolMessage(protocol: string, expected: string): string
  {
    "Protocol \"" + protocol + "\" not supported. Expected \"" + expected + "\""
  }

  /** What the synchronous part of the route decides about the `url` query parameter. */
  datatype Decision = Missing | Invalid(message: string) | Fetch(transport: Transport, url: Url.Url)

  function Decide(query: Option<string>): (d: Decision)
    ensures d.Missing? <==> query == None || query == Some("")
    ensures query.Some? && query.value != "" && !Url.HasScheme(query.value) ==> d == Invalid(Url.InvalidUrlMessage)
    ensures d.Fetch? ==>
      query.Some? && Url.Parse(query.value) == Success(d.url) &&
      Url.Protocol(d.url) in {"http:", "https:"} &&
      (d.transport == Encrypted <==> Url.Protocol(d.url) == "https:")
    ensures query.Some? && Url.Parse(query.value).Success? ==>
      (d.Fetch? <==> Url.Protocol(Url.Parse(query.value).value) in {"http:", "https:"})
    ensures query.Some? && Url.Parse(query.value).Success? && !d.Fetch? ==>
      d == Invalid(ProtocolMessage(Url.Protocol(Url.Parse(query.value).value), "http:"))
  {
    match query
    case None => Missing
    case Some(target) =>
      if target == "" then Missing
      else match Url.Parse(target)
        case Failure(message) => Invalid(message)
        case Success(u) =>
          var t := TransportFor(u);
          if Url.Protocol(u) == AgentProtocol(t) then Fetch(t, u)
          else Invalid(ProtocolMessage(Url.Protocol(u), AgentProtocol(t)))
  }

  datatype Body = Text(text: string) | ErrorPage(title: string, message: string)

  /** One terminal write to the client. */
  datatype Reply =
    | Sent(status: int, body: Body)
    | Redirected(status: int, location: string)
    | Piped(status: int, headers: map<string, Header>)

  function ConnectionErrorMessage(target: string, error: string): string
  {
    "Could not connect to: " + target + "<br><span style=\"color: #e94560;\">" + error + "</span>"
  }

  function TimeoutMessage(target: string): string
  {
    "The page took too long to respond: " + target
  }

  /** `proxyRes.headers.location`. */
  function LocationOf(hs: seq<Header>): (r: Option<string>)
    ensures r.Some? <==> exists i :: 0 <= i < |hs| && hs[i].name == "location"
    ensures r.Some? ==> exists i :: 0 <= i < |hs| && hs[i] == Header("location", r.value)
  {
    if hs == [] then None
    else if hs[0].name == "location" then Some(hs[0].value)
    else
      var r := LocationOf(hs[1..]);
      assert forall i :: 1 <= i < |hs| ==> hs[i] == hs[1..][i - 1];
      r
  }

  /** In node's header object the `location` entry, when there is one, is what LocationOf finds. */
  lemma LocationOfNode(hs: seq<Header>)
    ensures NodeHeaders(hs) ==>
      forall i :: 0 <= i < |hs| && hs[i].name == "location" ==> LocationOf(hs) == Some(hs[i].value)
  {
  }

  /**
   * The branch condition of the redirect case: a 3xx status and a non-empty Location.
   * On node's header object that is a 3xx status and a `location` header that is not empty.
   */
  predicate IsRedirect(status: int, hs: seq<Header>)
    ensures NodeHeaders(hs) ==>
      (IsRedirect(status, hs) <==>
        300 <= status < 400 && exists i :: 0 <= i < |hs| && hs[i].name == "location" && hs[i].value != "")
  {
    LocationOfNode(hs);
    300 <= status < 400 && LocationOf(hs).Some? && LocationOf(hs).value != ""
  }

  /**
   * The absolute URL the client is sent back to the relay for: a Location that begins
   * with "http" as it is, and any other the href of its resolution against the target,
   * which parses back to that resolution.
   */
  function RedirectTarget(location: string, target: Url.Url): (r: string)
    ensures StartsWith(location, "http") ==> r == location
    ensures !StartsWith(location, "http") && Url.ValidScheme(target.scheme) && IsLower(target.scheme) ==>
      Url.Parse(r) == Success(Url.Resolve(location, target))
  {
    if StartsWith(location, "http") then location
    else
      var v := Url.Resolve(location, target);
      if Url.ValidScheme(target.scheme) && IsLower(target.scheme) then
        Url.ParseHref(v);
        Url.Href(v)
      else Url.Href(v)
  }

  /**
   * The Location of the relay's own redirect: the route's prefix, then a parameter
   * that decodes to the redirect target.
   */
  function RedirectLocation(location: string, target: Url.Url): (r: string)
    ensures StartsWith(r, RedirectPrefix)
    ensures UriComponent.Decode(r[|RedirectPrefix|..]) == Some(RedirectTarget(location, target))
  {
    var e := UriComponent.Encode(RedirectTarget(location, target));
    UriComponent.DecodeEncode(RedirectTarget(location, target));
    assert (RedirectPrefix + e)[|RedirectPrefix|..] == e;
    RedirectPrefix + e
  }

  /** Express's `res` for one request. */
  class Response {
    var statusCode: int
    var headers: map<string, Header>
    var log: seq<Reply>

    /** `preset` holds what earlier middleware (CORS) has set. */
    constructor (preset: map<string, Header>)
      ensures statusCode == 200 && headers == preset && log == []
    {
      statusCode, headers, log := 200, preset, [];
    }

    /** res.status(code) */
    method Status(code: int)
      modifies this
      ensures statusCode == code && headers == old(headers) && log == old(log)
    {
      statusCode := code;
    }

    /** res.setHeader: `thrown` when it throws for an invalid name or value. */
    method SetHeader(h: Header) returns (thrown: bool)
      modifies this
      ensures thrown == !Accepted(h)
      ensures headers == if thrown then old(headers) else old(headers)[ToLower(h.name) := h]
      ensures statusCode == old(statusCode) && log == old(log)
    {
      thrown := !Accepted(h);
      if !thrown {
        headers := headers[ToLower(h.name) := h];
      }
    }

    /** res.status(status).send(body) */
    method Send(status: int, body: Body)
      modifies this
      ensures statusCode == status && headers == old(headers)
      ensures log == old(log) + [Sent(status, body)]
    {
      statusCode := status;
      log := log + [Sent(status, body)];
    }

    /** res.redirect(location) */
    method Redirect(location: string)
      modifies this
      ensures statusCode == RedirectStatus && headers == old(headers)
      ensures log == old(log) + [Redirected(RedirectStatus, location)]
    {
      statusCode := RedirectStatus;
      log := log + [Redirected(RedirectStatus, location)];
    }

    /** proxyRes.pipe(res): the status and headers go out, then the body is streamed. */
    method Pipe()
      modifies this
      ensures statusCode == old(statusCode) && headers == old(headers)
      ensures log == old(log) + [Piped(statusCode, headers)]
    {
      log := log + [Piped(statusCode, headers)];
    }
  }

  /** The upstream request, once the route has issued it. */
  datatype Upstream = NotIssued | Issued(transport: Transport, url: Url.Url, timeoutMs: int, destroyed: bool)

  /** The state one call of the `/proxy` route keeps across its callbacks. */
  class ProxyHandler {
    const res: Response
    const target: string
    var responseSent: bool
    var upstream: Upstream

    /**
     * At most one terminal write. Every write but the early "Missing url parameter"
     * answer sets `responseSent`, and that answer leaves no upstream request behind.
     */
    ghost predicate Valid()
      reads this, res
    {
      |res.log| <= 1 &&
      (responseSent ==> |res.log| == 1) &&
      (!responseSent && |res.log| == 1 ==> upstream == NotIssued)
    }

    /** The synchronous part of the route for the query parameter `query`. */
    constructor (query: Option<string>, preset: map<string, Header>)
      ensures Valid() && fresh(res)
      ensures target == if query.Some? then query.value else ""
      ensures res.headers == preset
      ensures match Decide(query)
        case Missing =>
          res.log == [Sent(400, Text(MissingUrlText))] && upstream == NotIssued && !responseSent
        case Invalid(message) =>
          res.log == [Sent(400, ErrorPage("Invalid URL", message))] && upstream == NotIssued && responseSent
        case Fetch(t, u) =>
          res.log == [] && upstream == Issued(t, u, UpstreamTimeoutMs, false) && !responseSent
    {
      res := new Response(preset);
      target := if query.Some? then query.value else "";
      responseSent := false;
      upstream := NotIssued;
      new;
      if target == "" {
        res.Send(400, Text(MissingUrlText));
        return;
      }
      var parsed := Url.Parse(target);
      if parsed.Failure? {
        SendError(400, "Invalid URL", parsed.error);
        return;
      }
      var transport := TransportFor(parsed.value);
      var protocol := Url.Protocol(parsed.value);
      if protocol != AgentProtocol(transport) {
        SendError(400, "Invalid URL", ProtocolMessage(protocol, AgentProtocol(transport)));
        return;
      }
      upstream := Issued(transport, parsed.value, UpstreamTimeoutMs, false);
    }

    /** sendError: writes the error page unless a response was already sent. */
    method SendError(status: int, title: string, message: string)
      requires Valid() && (upstream == NotIssued ==> res.log == [])
      modifies this, res
      ensures Valid() && responseSent
      ensures upstream == old(upstream) && res.headers == old(res.headers)
      ensures res.log == if old(responseSent) then old(res.log) else [Sent(status, ErrorPage(title, message))]
    {
      if responseSent {
        return;
      }
      responseSent := true;
      res.Send(status, ErrorPage(title, message));
    }

    /** The response callback, for upstream status `status` and header object `hs`. */
    method OnResponse(status: int, hs: seq<Header>)
      requires Valid() && upstream.Issued?
      modifies this, res
      ensures Valid() && responseSent && upstream == old(upstream)
      ensures old(responseSent) ==>
        res.log == old(res.log) && res.headers == old(res.headers) && res.statusCode == old(res.statusCode)
      ensures !old(responseSent) && IsRedirect(status, hs) ==>
        res.log == [Redirected(RedirectStatus, RedirectLocation(LocationOf(hs).value, upstream.url))]
      ensures !old(responseSent) && !IsRedirect(status, hs) ==>
        res.log == [Piped(status, Relayed(old(res.headers), hs))]
    {
      if responseSent {
        return;
      }
      var location := LocationOf(hs);
      if 300 <= status < 400 && location.Some? && location.value != "" {
        var redirectUrl := location.value;
        if !StartsWith(redirectUrl, "http") {
          redirectUrl := Url.Href(Url.Resolve(redirectUrl, upstream.url));
        }
        responseSent := true;
        res.Redirect(RedirectPrefix + UriComponent.Encode(redirectUrl));
        return;
      }
      res.Status(status);
      CopyHeaders(hs);
      responseSent := true;
      res.Pipe();
    }

    /** The copy, the three deletes and the setHeader loop of the response callback. */
    method CopyHeaders(hs: seq<Header>)
      modifies res
      ensures res.headers == Relayed(old(res.headers), hs)
      ensures res.log == old(res.log) && res.statusCode == old(res.statusCode)
    {
      var headers := hs;
      headers := Without(headers, FrameBlocking[0]);
      headers := Without(headers, FrameBlocking[1]);
      headers := Without(headers, FrameBlocking[2]);
      SetHeaders(headers);
    }

    /** The setHeader loop: each header that is not hop-by-hop is offered to setHeader, and one it rejects is skipped. */
    method SetHeaders(headers: seq<Header>)
      modifies res
      ensures res.headers == Forwarded(old(res.headers), headers)
      ensures res.log == old(res.log) && res.statusCode == old(res.statusCode)
    {
      ghost var out := res.headers;
      var i := 0;
      while i < |headers|
        invariant 0 <= i <= |headers|
        invariant res.headers == Forwarded(out, headers[..i])
        invariant res.log == old(res.log) && res.statusCode == old(res.statusCode)
      {
        ForwardedPrefix(out, headers, i);
        if !IsHopByHop(headers[i].name) {
          var thrown := res.SetHeader(headers[i]);
        }
        i := i + 1;
      }
      assert headers[..i] == headers;
    }

    /** The request's 'error' listener. */
    method OnError(message: string)
      requires Valid() && upstream.Issued?
      modifies this, res
      ensures Valid() && responseSent && upstream == old(upstream)
      ensures res.log == if old(responseSent) then old(res.log)
        else [Sent(500, ErrorPage("Failed to load page", ConnectionErrorMessage(target, message)))]
    {
      SendError(500, "Failed to load page", ConnectionErrorMessage(target, message));
    }

    /** The timeout callback: destroys the upstream request, then answers 504 unless already answered. */
    method OnTimeout()
      requires Valid() && upstream.Issued?
      modifies this, res
      ensures Valid() && responseSent
      ensures upstream == old(upstream).(destroyed := true)
      ensures res.log == if old(responseSent) then old(res.log)
        else [Sent(504, ErrorPage("Request timed out", TimeoutMessage(target)))]
    {
      upstream := upstream.(destroyed := true);
      SendError(504, "Request timed out", TimeoutMessage(target));
    }
  }

  // ---------- properties ----------

  /**
   * The race the guard is there for: the timeout fires first, then a connection error
   * and a late response arrive. Only the 504 page is written.
   */
  method TimeoutWins(query: Option<string>, status: int, hs: seq<Header>, message: string) returns (log: seq<Reply>)
    requires Decide(query).Fetch?
    ensures log == [Sent(504, ErrorPage("Request timed out", TimeoutMessage(query.value)))]
  {
    var handler := new ProxyHandler(query, map[]);
    handler.OnTimeout();
    handler.OnError(message);
    handler.OnResponse(status, hs);
    log := handler.res.log;
  }

  /**
   * A response that arrives first is the one written, whatever the error and timeout
   * callbacks do afterwards.
   */
  method ResponseWins(query: Option<string>, status: int, hs: seq<Header>, message: string) returns (log: seq<Reply>)
    requires Decide(query).Fetch? && !IsRedirect(status, hs)
    ensures log == [Piped(status, Relayed(map[], hs))]
  {
    var handler := new ProxyHandler(query, map[]);
    handler.OnResponse(status, hs);
    handler.OnError(message);
    handler.OnTimeout();
    log := handler.res.log;
  }

  /**
   * The relay's redirect carries its whole target in the one `url` parameter: after
   * the prefix comes no delimiter that could end the parameter or the query, and
   * decoding what comes after the prefix gives the target back.
   */
  lemma RedirectCarriesTarget(location: string, target: Url.Url)
    ensures StartsWith(RedirectLocation(location, target), RedirectPrefix)
    ensures var param := RedirectLocation(location, target)[|RedirectPrefix|..];
      (forall i :: 0 <= i < |param| ==> param[i] !in {':', '/', '?', '&', '=', '#', '+', ' '}) &&
      UriComponent.Decode(param) == Some(RedirectTarget(location, target))
  {
    var e := UriComponent.Encode(RedirectTarget(location, target));
    assert RedirectLocation(location, target)[|RedirectPrefix|..] == e;
    UriComponent.EncodeHasNoDelimiters(RedirectTarget(location, target));
    UriComponent.DecodeEncode(RedirectTarget(location, target));
  }

  /**
   * A relative Location (one with no scheme that does not begin with "http") sends the
   * client back with a target the route fetches again, over the same transport, at the
   * location resolved against the first target.
   */
  lemma RelativeRedirectRefetched(query: Option<string>, location: string)
    requires Decide(query).Fetch?
    requires !StartsWith(location, "http") && !Url.HasScheme(location)
    ensures var u := Decide(query).url;
      Decide(Some(RedirectTarget(location, u))) == Fetch(Decide(query).transport, Url.Resolve(location, u))
  {
    var u := Decide(query).url;
    var v := Url.Resolve(location, u);
    Url.ParseHref(v);
    assert Url.Href(v) != "" by {
      assert |Url.Href(v)| >= 1 + |v.scheme|;
    }
  }

  /** A Location that begins with "http" travels as it is, whether or not it is an absolute URL. */
  lemma HttpLocationVerbatim(location: string, target: Url.Url)
    requires StartsWith(location, "http")
    ensures UriComponent.Decode(RedirectLocation(location, target)[|RedirectPrefix|..]) == Some(location)
  {
    RedirectCarriesTarget(location, target);
  }

  /**
   * The Location "/b" from https://example.com/a (which parses as ExampleParse states)
   * becomes the relay's /proxy?url=https%3A%2F%2Fexample.com%2Fb.
   */
  lemma RedirectExample(location: string, target: Url.Url, host: string)
    requires location == "/b" && host == "example.com" && target == Url.Url("https", "//" + host + "/a")
    ensures RedirectLocation(location, target) == RedirectPrefix + ("https" + "%3A" + "%2F" + "%2F" + host + "%2F" + "b")
  {
    ExampleTarget(location, target, host);
    var t := "https" + ":" + "//" + host + location;
    assert t == "https" + ":" + "/" + "/" + host + "/" + "b";
    EncodeExample("https", ":", "/", host, "b");
    RedirectLocationOf(location, target, t, "https" + "%3A" + "%2F" + "%2F" + host + "%2F" + "b");
  }

  /** The relay's Location is the prefix followed by the encoding of the redirect target. */
  lemma RedirectLocationOf(location: string, target: Url.Url, t: string, e: string)
    requires RedirectTarget(location, target) == t && UriComponent.Encode(t) == e
    ensures RedirectLocation(location, target) == RedirectPrefix + e
  {
  }

  lemma ExampleTarget(location: string, target: Url.Url, host: string)
    requires location == "/b" && host == "example.com" && target == Url.Url("https", "//" + host + "/a")
    ensures RedirectTarget(location, target) == "https" + ":" + "//" + host + location
  {
    assert !StartsWith(location, "http");
    assert location[1] == 'b';
    Url.ResolveAbsolutePath(location, target);
    ExampleAuthority(target.rest, host);
  }

  lemma ExampleAuthority(rest: string, host: string)
    requires host == "example.com" && rest == "//" + host + "/a"
    ensures Url.AuthorityPart(rest) == "//" + host
  {
    var r := rest[2..];
    assert r == host + "/a";
    Url.IndexOfAnyIsFirst(r, {'/', '?', '#'}, 11);
    assert rest[..13] == "//" + host;
  }

  lemma ExampleParse(s: string, host: string)
    requires host == "example.com" && s == "https://" + host + "/a"
    ensures Url.Parse(s) == Success(Url.Url("https", "//" + host + "/a"))
  {
    var u := Url.Url("https", "//" + host + "/a");
    assert s == Url.Href(u);
    assert Url.ValidScheme(u.scheme);
    LowerOfLower(u.scheme);
    Url.ParseHref(u);
  }

  lemma EncodeExample(scheme: string, colon: string, slash: string, host: string, path: string)
    requires scheme == "https" && colon == ":" && slash == "/" && host == "example.com" && path == "b"
    ensures UriComponent.Encode(scheme + colon + slash + slash + host + slash + path) ==
      scheme + "%3A" + "%2F" + "%2F" + host + "%2F" + path
  {
    EncodeColon();
    EncodeSlash();
    UriComponent.EncodeUnescaped(scheme);
    UriComponent.EncodeUnescaped(host);
    UriComponent.EncodeUnescaped(path);
    var s1 := scheme + colon;
    UriComponent.EncodeConcat(scheme, colon);
    var s2 := s1 + slash;
    UriComponent.EncodeConcat(s1, slash);
    var s3 := s2 + slash;
    UriComponent.EncodeConcat(s2, slash);
    var s4 := s3 + host;
    UriComponent.EncodeConcat(s3, host);
    var s5 := s4 + slash;
    UriComponent.EncodeConcat(s4, slash);
    UriComponent.EncodeConcat(s5, path);
  }

  lemma EncodeColon()
    ensures UriComponent.Encode(":") == "%3A"
  {
    assert UriComponent.EncodeChar(':') == UriComponent.EscapeByte(0x3A);
    assert ":"[1..] == [];
  }

  lemma EncodeSlash()
    ensures UriComponent.Encode("/") == "%2F"
  {
    assert UriComponent.EncodeChar('/') == UriComponent.EscapeByte(0x2F);
    assert "/"[1..] == [];
  }
}
